# Timer server and fixed-point kernels: a verified model

This project models the software timer server of the LoRa node, the fixed-point and
circular-buffer kernels of `arm_math.h` that carry numeric promises, the software bit reversal,
and the packed interrupt-priority registers, and proves what they promise.

## The timer server

Timers are caller-owned objects in a singly linked list. A node stores only the time after its
predecessor; the head's time counts from the last `TimerHwStart`. Every operation rewrites at most
two of these deltas.

- `TimerSchedule.dfy` is the promise without the list: a queue of absolute deadlines, the pure
  steps `Started`, `Stopped`, `Revalued`, `Ticked`, `Interrupted`, and the invariant `Sound` that
  every run keeps. An interrupt event carries what its callbacks do, so callbacks may differ from
  call to call.
- `DeltaList.dfy` relates deltas to deadlines by one equation per entry and shows that an edit of
  two deltas carries out one edit of the queue.
- `TimerCells.dfy` and `TimerServer.dfy` are the code: classes `TimerEvent` and `Server` with the C
  fields, loops and branches. `Server.Valid` ties the list to a ghost schedule, and every method
  states which schedule step it takes. `Server.Perform` puts this in one statement: after any
  sequence of events the list stands for the corresponding run of the schedule, and the callbacks
  made are those that the schedule says, so the theorems below are theorems about the list.
  `Server.called` is the sequence of callbacks made; only `RunCallback` extends it, and only for a
  callback that is not NULL. `Word` is `uint32_t` as a subset type: each assignment to a
  `Word` is also a proof that the C expression does not wrap.
- `TimerCallbacks.dfy` says what the walk over expired timers reads after any callbacks, and when
  it serves exactly the expired timers.
- `TimerTheorems.dfy` holds what one call does to the map from timer to deadline, and the order and
  conservation of every run; `TimerHistory.dfy` holds when timers are called back.
- `TimerRuns.dfy` holds whole runs of the server: every run in which the program keeps the rules of
  the header file, and in which the ticks since the last `TimerHwStart`, with the lead, fit 32 bits
  at every call and interrupt, is a run of the server from its constructor, with the same callbacks
  (`Replay`).

Two boards are covered by one parameter. `TimerHwGetElapsedTime` of this board reports the elapsed
ticks **plus one** (`HAL/src/timer-board.c:163`). The parameter `lead` is that surplus: 1 here, 0
for a clock that reads exactly. With a lead, each `TimerHwStart` brings all deadlines forward by up
to `lead` ticks. `Server.hwStarts` counts the calls of `TimerHwStart`, and the schedule keeps one
amount per call.

What came out, beside the refinement:

- Exact lateness (`TimerHistory.ExactLateness`): every start that a run from start-up takes off the
  list as expired was made in some event m and comes off in an interrupt n, at start +
  `ReloadValue` + (overdue ticks between m and n) − (what the `TimerHwStart` calls between the start
  and n brought forward). Both amounts are counted over the run, and the second is at most `lead`
  per call. If every walk of the run is on course (see below), the callbacks of the run are exactly
  these, one for each, at the same ticks (`CallsAreFirings`).
- "No callback is early" holds over all runs of programs that keep the rules and keep their walks on
  course if and only if `lead` is 0 (`TimerHistory.NeverEarlyIff`). It does **not** hold on this
  board. Off course it does not hold with lead 0 either: a callback that starts its own timer and
  another one of the same value has the other one called back at once, `ReloadValue` ticks early
  (`StrayRun`, on the server `TimerRuns.StrayOnServer`). With lead 0 a run has no early callback if
  and only if its walks call back no timer that has not expired, and none twice
  (`NeverEarlyOffCourseIff`).
- How early with a lead: starting and stopping a shorter timer brings a pending one forward twice
  (`Flicker`); a timer that is not shorter brings nothing (`NoFlicker`). With timers that have been given values this helps down to the board's minimum: for
  every value there is a run in which a timer of that value is called back after at most
  `minimum` ticks, one tick on this board (`EarliestRun`, on the server
  `TimerRuns.EarliestOnServer`); its walks are on course.
- `TimerGetValue` narrows a 64-bit time to 32 bits (`HAL/src/timerserver.c:395-398`). This is
  harmless exactly while the elapsed time fits 32 bits or its residue still covers the head's
  timestamp (`TimerCells.ReadingExactIff`); outside, an overdue head comes to life again and the
  sum in `TimerStop` can overflow: `TimerRuns.LateReadingOverflows` is a run of the server, from
  its constructor, that gets there for every board and every value. `Server.ReadingExact` is this
  condition; it is asked only of the calls that use a reading.
- The walk over expired timers reads `Next` after each callback (line 258). `Server.TimerIrqHandler`
  is proved for whatever the callbacks do, provided the walk ends at all (`TimerCallbacks.Complete`):
  it runs the callbacks of the timers that the schedule says it comes to. These are exactly the
  expired timers, once each in list order, if and only if each of them leads on: at the end of its
  callback its `Next` is the next expired timer with a zero timestamp, or for the last one the walk
  ends there (`TimerCallbacks.OnCourseIff`). For the last one, if it has been restarted, this says
  that no timer behind it is due with it (`RestartedEnds`). Callbacks that stop any timers and make
  calls on timers that the walk has nothing to do with are always on course; the last one may make
  any calls at all if it ends by restarting its own timer (`PoliteOnCourse`). Ways off it: a
  callback that restarts its own timer while other expired timers are still to be served ends the
  walk, and their callbacks are lost (`Server.SkipHazard`); a callback that restarts its own timer
  and then starts another one makes the walk run the other one's callback at once, if and only if
  both fall due together (`Server.RestartHazard`); and two timers of the same value that reset each
  other in their callbacks can keep the walk going for ever (`EndlessWalk`). `Server.WalkRound` holds
  in each round of such a walk as well.

## The kernels

- `Reciprocal.dfy`: Newton-Raphson reciprocal in Q31 and Q15. The error recurrence is exact, so for
  positive inputs quadratic convergence, "never above the true reciprocal" and "the clip never
  fires" follow for every seed. Negative inputs are normalised by the code as well, but the
  steps then run away: in Q31 the result is the largest number whatever the input
  (`NegativeSaturates`), in Q15 the first step leaves the range and wraps (`NegativeWraps`).
- `Pid.dfy`: the incremental Q15 controller, saturated to the nearest output, equals the positional
  law less a bounded truncation while it does not saturate.
- `CircularBuffer.dfy`: which source sample ends up in which slot, delay-line correctness over any
  block writes, down to calls of the two kernels (`DelayedRead`), and strided writing. The
  write kernel keeps its offset in 16 bits between blocks; the delay line is right for every use of
  a buffer if and only if it has at most 65536 samples (`DelayLineIff`). The source's comment speaks
  of negative offsets as well, but the code corrects at the upper end only: a negative stride is
  usable exactly until it would pass slot 0 (`BackwardIff`).
- `Interpolation.dfy`: monotone table interpolation, with the exact law of the kernels
  (`InterpolatesQ15`, `InterpolatesQ7`). The two weights add up to 2^20 − 1, not 2^20,
  so at a node with a positive value the kernel returns one less than the table; hence over
  negative inputs as well it is monotone exactly when the first value is not positive (or there is
  only one). The comment promises tables of 2^12 values, but the index of a signed 12.20 input
  ends at 2047, so values from the 2050th on have no effect (`RestUnused`).
- `Clarke.dfy`: the Q31 transform and its inverse are inverse to within 3 units where the second
  product and the sum fit 32 bits; where the sum is cut off, Ib comes back smaller by a known part
  of what was cut off (`RoundTripSaturated`). The comment says there is no risk of overflow; beyond
  |Ib| = 1859775393 the conversion of the second product wraps and the current comes back with the
  wrong sign.
- `BitReversal.dfy`, `NvicPriority.dfy`: the early-exit bit reversal, and the packed priority
  fields as a map from interrupt to priority, each in its own byte of the registers.
- `Common.dfy`, `Arithmetic.dfy`, `Saturation.dfy`: machine integers, quotients and powers of two,
  and the saturating helpers.

Right shifts of signed numbers are taken to be arithmetic, as the kernels rely on, and are written
as division by a power of two, which floors. Preconditions that stand for C's own rules: pointers
stay in their arrays, tables are not empty, and signed sums do not overflow. Lemmas about unit and
coprime strides speak of buffers of at most 2^30 samples.

## Model

| member | source | states |
|---|---|---|
| TimerServer.Server.Perform | HAL/src/timerserver.c:85-393 | Refinement over every run: any admissible event (initialise, tick, call, interrupt) takes the abstract step, so a list that stands for a run of the schedule stands for the longer run afterwards; an interrupt calls back the timers that the schedule's walk visits, in order and once for each visit, unless the callback is NULL, and no other event calls back any |
| TimerServer.Server.TimerStart | HAL/src/timerserver.c:94-140 | The list afterwards encodes the schedule with the timer inserted at now + ReloadValue; NULL and linked timers change nothing; the hardware is re-programmed exactly for a new head; no other timer's positive delta becomes zero |
| TimerServer.Server.TimerInsertTimer | HAL/src/timerserver.c:142-194 | Insertion behind the head lands behind every timer due no later, re-links exactly one place and never wraps |
| TimerServer.Server.FindPlace | HAL/src/timerserver.c:147-192 | The walk ends at the one place where the sum of gaps up to prev is at most, and up to cur more than, the new time |
| TimerServer.Server.TimerInsertNewHeadTimer | HAL/src/timerserver.c:196-210 | A new head keeps the old head's deadline and re-programs the hardware for itself |
| TimerServer.Server.RemainingTime | HAL/src/timerserver.c:116-128 | The clamped difference of timestamp and reading is the head's true remaining time, where the 32-bit reading is exact |
| TimerCells.ReadingExactIff | HAL/src/timerserver.c:395-398 | The narrowing of the reading to 32 bits is harmless exactly if the time fits or its residue covers the timestamp |
| TimerRuns.LateReadingOverflows | HAL/src/timerserver.c:290-302 | For every board and every value a run of the server from its constructor reaches a state in which the sum in TimerStop overflows |
| TimerServer.Server.TimerStop | HAL/src/timerserver.c:269-354 | The timer is unlinked, its successor inherits its gap, every other deadline is kept; an unlinked or NULL timer changes nothing |
| TimerServer.Server.StopHead | HAL/src/timerserver.c:286-324 | Stopping the head, running or not yet started, keeps the deadlines of the rest and the hardware agreement |
| TimerServer.Server.StopInner | HAL/src/timerserver.c:325-352 | The search leaves at the object or at the end; its predecessor is linked to its successor |
| TimerServer.Server.TimerExists | HAL/src/timerserver.c:356-369 | True exactly for linked objects |
| TimerServer.Server.TimerReset | HAL/src/timerserver.c:371-375 | Stop, then start; a reading is needed unless the list is empty without the timer |
| TimerServer.Server.TimerSetValue | HAL/src/timerserver.c:377-393 | Unlinks first, then sets the value, at least the board's minimum |
| TimerServer.Server.TimerIrqHandler | HAL/src/timerserver.c:212-267 | For any callbacks with which the walk ends: unlinks the due prefix, makes the callback of every timer that the walk comes to, in order, once for each visit, unless it is NULL; restarts the hardware for the head; the walk comes to exactly the due prefix, once each in list order, if and only if each callback leads on |
| TimerServer.Server.UnlinkExpired | HAL/src/timerserver.c:237-248 | What is unlinked is exactly what is due; the unlinked objects still form the chain that the walk follows |
| TimerServer.Server.Walk | HAL/src/timerserver.c:250-259 | The walk visits exactly the timers that the schedule's cells lead to, whatever the callbacks do, and the callbacks made are those of the visited timers that have one |
| TimerServer.Server.WalkRound | HAL/src/timerserver.c:252-258 | Each round of a walk, whether or not the walk ever ends, makes one callback, or none if it is NULL, and goes on to the timer that the schedule's cells lead to |
| TimerServer.Server.ServeExpired | HAL/src/timerserver.c:254-258 | The callback is made exactly once, with or without timer calls in it, or not at all if it is NULL; after it the walk goes on to the timer that the schedule's cells say, or ends |
| TimerServer.Server.RunCallback | HAL/src/timerserver.c:254-257 | A callback that is not NULL is made once; any sequence of calls in it keeps the cells that the walk reads as the schedule says |
| TimerCallbacks.CallersOften | HAL/src/timerserver.c:254-257 | A timer is called back as often as the walk comes to it, or never if its callback is NULL |
| TimerServer.Server.ExecuteInWalk | HAL/src/timerserver.c:94-393 | Every single call keeps Timestamp (zero or not) and Next of all timers that the walk can come to as the schedule says |
| TimerServer.Server.Restart | HAL/src/timerserver.c:261-266 | The hardware counts for the head again, for the second time if a callback has started it, and no deadline moves but by that TimerHwStart |
| TimerServer.Server.WalkReadsZeroIff | HAL/src/timerserver.c:252-258 | Through a linked object the walk would go on exactly if the entry behind it has the same deadline |
| TimerServer.Server.SkipHazard | HAL/src/timerserver.c:252-258 | A callback that restarts its own timer before the last expired one is served ends the walk; the expired timers behind are neither linked nor called back |
| TimerServer.Server.RestartHazard | HAL/src/timerserver.c:252-258 | After restarting itself and starting another timer the walk finds a live timer with a zero timestamp exactly if both fall due together |
| TimerServer.Server.Initialise | HAL/src/timerserver.c:85-92 | Initialising an unlinked object leaves the list alone and gives it ReloadValue 0 |
| TimerServer.Server.TimerIncrementTickCounter | HAL/inc/timer-board.h:96-99 | A tick changes no cell and moves the deadlines exactly as the schedule says |
| TimerServer.Server.constructor | HAL/src/timerserver.c:29 | An empty list stands for a schedule after start-up |
| TimerCallbacks.OnCourseIff | HAL/src/timerserver.c:250-259 | A walk serves exactly the expired timers, in order, if and only if at the end of each callback Next and the timestamp behind it lead to the next one, or to the end |
| TimerCallbacks.PoliteOnCourse | HAL/src/timerserver.c:250-259 | Callbacks that stop timers and call on timers that are neither expired nor the first survivor never lead the walk astray; the last one may make any calls if it ends by restarting its own timer |
| TimerCallbacks.OnCourseServes | HAL/src/timerserver.c:237-259 | On course an interrupt calls back exactly the timers that it takes off the list as expired, in order |
| TimerCallbacks.EndlessWalk | HAL/src/timerserver.c:252-258 | With an exact reading two timers of the same value whose callbacks reset each other keep the walk going after any number of rounds |
| TimerCallbacks.RestartedEnds | HAL/src/timerserver.c:252-258 | From a restarted timer the walk ends exactly if no entry behind it is due with it |
| TimerCallbacks.StartLeavesGap | HAL/src/timerserver.c:130-136 | A timer that restarts itself has a strictly later successor |
| TimerCallbacks.HazardStep | HAL/src/timerserver.c:163-171 | A start puts a zero delta behind a timer exactly if both fall due together |
| DeltaList.NoWrap | HAL/src/timerserver.c:152-189 | No delta, no walked sum and no sum of two neighbouring deltas leaves 32 bits, because a deadline is never further away than a ReloadValue |
| DeltaList.SplitEncodes | HAL/src/timerserver.c:163-171 | Shortening one gap and inserting another adds one deadline and keeps all others |
| DeltaList.MergeEncodes | HAL/src/timerserver.c:333-343 | Handing a gap to the successor removes one deadline and keeps all others |
| DeltaList.ZeroPrefixDue | HAL/src/timerserver.c:237-248 | The maximal prefix of zero gaps is exactly what is due |
| DeltaList.Sorted | HAL/src/timerserver.c:34-35 | The list is always sorted by deadline, the head first |
| DeltaList.SplitSlot | HAL/src/timerserver.c:130-137 | The place found by the two strict tests is the one behind every timer due no later |
| TimerTheorems.StartDue | HAL/src/timerserver.c:94-140 | On the deadline map: adds now + ReloadValue for a new timer, nothing for a pending one, and shifts the others by its TimerHwStart only, at most lead |
| TimerTheorems.StopDue | HAL/src/timerserver.c:269-354 | On the deadline map: removes one timer, shifts the others by its TimerHwStart only, at most lead |
| TimerTheorems.ResetDue | HAL/src/timerserver.c:371-375 | A reset timer is due at now + ReloadValue, pending before or not, less its own TimerHwStart, at most lead |
| TimerTheorems.ResetOtherDue | HAL/src/timerserver.c:371-375 | A reset moves every other deadline by its two TimerHwStart calls only, at most twice lead |
| TimerTheorems.SetValueDue | HAL/src/timerserver.c:377-393 | No value disturbs another deadline beyond the TimerHwStart of the stop, at most lead; the new ReloadValue is at least the minimum |
| TimerTheorems.ReprogramDue | HAL/src/timerserver.c:405-410 | TimerHwStart shifts all deadlines by the same amount, at most lead |
| TimerTheorems.TickDue | HAL/src/timerserver.c:118-123 | Deadlines slip exactly while the head is overdue, all by one per tick |
| TimerTheorems.ExpireDue | HAL/src/timerserver.c:237-248 | An interrupt removes exactly the entries due now from the deadline map |
| TimerTheorems.InterruptFires | HAL/src/timerserver.c:237-259 | An interrupt takes off the list and logs as fired exactly the entries due at its tick, in the order of their starts, and no later one, whatever the callbacks do |
| TimerTheorems.QuietInterrupt | HAL/src/timerserver.c:261-266 | After callbacks that make no calls exactly the survivors are pending, shifted by one re-programming |
| TimerTheorems.EveryStartOnce | HAL/src/timerserver.c:94-267 | Over every run the serial numbers of the pending, fired and stopped starts are together 0 to starts - 1, each exactly once |
| TimerTheorems.OrderedAndStable | HAL/src/timerserver.c:130-192 | Over every run the queue is sorted, equal deadlines keep start order, the log of fired starts is in time order |
| TimerHistory.ExactLateness | HAL/src/timerserver.c:225-232 | Over every run a start that expires comes from a start event and the interrupt that takes it off the list, and its tick is start + ReloadValue + the overdue ticks between them − what the TimerHwStart calls since the start brought forward, at most lead each; if every walk is on course this is the tick of its callback |
| TimerHistory.CallsAreFirings | HAL/src/timerserver.c:237-259 | If every walk of a run is on course, its callbacks are exactly the starts that its interrupts take off the list, each once, in order and at the same tick |
| TimerHistory.WaitedIsOverdueTicks | HAL/src/timerserver.c:118-123 | The slip of a run is the number of its ticks with an overdue head |
| TimerHistory.HwStartsAreForwards | HAL/src/timerserver.c:405-410 | The TimerHwStart calls of a run are those of its new heads, stopped running heads and interrupts, each with the ticks it brings forward |
| TimerHistory.ExactWithoutLead | HAL/src/timerserver.c:225-232 | With an exact reading an expired start, and its callback if every walk is on course, is late by exactly the overdue ticks between its start and its interrupt |
| TimerHistory.PromptRunExact | HAL/src/timerserver.c:212-267 | Without lead and served promptly, every start expires exactly at start + ReloadValue, and this is the tick of its callback if every walk is on course |
| TimerHistory.NeverEarlyIff | HAL/src/timerserver.c:225-232 | No callback is early, over all runs of programs that start only timers with a value and keep every walk on course, if and only if the reading has no lead |
| TimerHistory.NeverEarlyOffCourseIff | HAL/src/timerserver.c:250-259 | With an exact reading any run has no early callback if and only if its walks call back only timers that have expired, each once |
| TimerHistory.StrayRun | HAL/src/timerserver.c:252-258 | With an exact reading, for every value, a program that keeps the rules has a run off course with a callback that is early by the whole ReloadValue |
| TimerHistory.EarliestRun | HAL/src/timerserver.c:225-248 | For every positive lead and every value there is such a run in which a timer of that value is called back after at most minimum ticks (one if that is 0), with every walk on course |
| TimerHistory.Flicker | HAL/src/timerserver.c:286-305 | Starting and stopping a shorter timer in one tick brings every deadline forward by up to lead, twice |
| TimerHistory.NoFlicker | HAL/src/timerserver.c:130-137 | Starting and stopping a timer that is not shorter moves no deadline |
| TimerRuns.Replay | HAL/inc/timerserver.h:40-94 | Every run of the schedule in which only initialised timers with callbacks are used and only timers with a value are started, and at every call and interrupt the ticks since the last TimerHwStart with the lead fit 32 bits, is a run of the server from its constructor, and the callbacks that the server makes are those of the run, in order and at the same ticks |
| TimerRuns.EarliestOnServer | HAL/src/timerserver.c:225-248 | The earliest run and its one callback, performed on the server with two timers |
| TimerRuns.StrayOnServer | HAL/src/timerserver.c:252-258 | The run with an early callback off course, performed on a server without lead |
| TimerSchedule.RunSound | HAL/src/timerserver.c:94-354 | Every run keeps the ledger, the order, the bound by ReloadValue and the conservation of starts |
| Reciprocal.ErrorRecurrence | CMSIS/Include/arm_math.h:594-601 | The error after a step is the squared error plus two explicit remainders, exactly, for inputs of either sign |
| Reciprocal.StepConverges | CMSIS/Include/arm_math.h:594-601 | Quadratic convergence from any seed, never above the true reciprocal |
| Reciprocal.StepFits | CMSIS/Include/arm_math.h:645-652 | The Q31 clip never fires and the Q15 conversion never wraps |
| Reciprocal.RecipQ31 | CMSIS/Include/arm_math.h:563-608 | Normalises the magnitude of the input, reads the seed in bounds, and returns two Newton steps from it; for a negative input two clipped rounds |
| Reciprocal.RecipQ15 | CMSIS/Include/arm_math.h:614-659 | The same for Q15, where the rounds of a negative input wrap |
| Reciprocal.RoundsCut | CMSIS/Include/arm_math.h:594-652 | For inputs of either sign a round is a Newton step, in Q31 cut to the nearest number of the format, in Q15 to the one with the same residue |
| Reciprocal.NegativeSaturates | CMSIS/Include/arm_math.h:577-601 | For a negative input and any seed of a quarter of full scale or more the Q31 result is the largest number |
| Reciprocal.NegativeWraps | CMSIS/Include/arm_math.h:628-651 | For a negative input and any seed of half scale or more the first Q15 round leaves the 16-bit range and wraps by a known multiple |
| Reciprocal.AccuracyQ31 | CMSIS/Include/arm_math.h:592-601 | From a seed right to 1/64 the result is at most 131 units too small and never too large |
| Reciprocal.AccuracyQ15 | CMSIS/Include/arm_math.h:643-652 | The same for Q15 with 3 units |
| Reciprocal.Clz | CMSIS/Include/arm_math.h:543-556 | The loop returns the number of leading zeros of a non-zero word |
| Saturation.Ssat | CMSIS/Include/arm_math.h:666-698 | The exact clamp to y bits: the y-bit number nearest to the argument |
| Common.ClampNearest | CMSIS/Include/arm_math.h:666-698 | A saturated number is the nearest one of its range, and only that one is |
| Saturation.ClipIsClamp | CMSIS/Include/arm_math.h:484-489 | The word comparison is the exact clamp of a 64-bit number to 32 bits: the nearest 32-bit number |
| Pid.Instance.Process | CMSIS/Include/arm_math.h:4876-4916 | One sample: of the 16-bit numbers the output is the one nearest to (A0 x[n] + A1 x[n-1] + A2 x[n-2] + y[n-1] * 2^15) / 2^15; the state is shifted, and so the run of the controller is extended by the sample |
| Pid.OutputNearest | CMSIS/Include/arm_math.h:4896-4907 | The same law for the specification of the output |
| Pid.NoOverflow | CMSIS/Include/arm_math.h:4896-4907 | The products fit 32 bits and so does the value handed to the saturation |
| Pid.IncrementalIsPositional | CMSIS/Include/arm_math.h:4741-4745 | After n samples without saturation the output is the positional law less a loss in [0, n) units |
| Pid.Telescope | CMSIS/Include/arm_math.h:4742-4745 | One incremental term is exactly the growth of the positional law |
| CircularBuffer.CircularWrite | CMSIS/Include/arm_math.h:5905-5943 | Source sample start + k srcInc goes to slot (w + k inc) mod L, or w + k inc for a negative stride, where it stays unless a later one goes there; all other slots keep their values; the new offset is that of the next slot, narrowed to 16 bits |
| CircularBuffer.CircularRead | CMSIS/Include/arm_math.h:5949-5999 | For destination strides that divide the length, sample k comes from slot (r + k inc) mod L and goes to base + (start - base + k dstInc) mod length; all other positions keep their values; and the new offset |
| CircularBuffer.ReadBackDown | CMSIS/Include/arm_math.h:5985-5991 | With a negative stride sample k comes from slot r + k inc |
| CircularBuffer.DstRound | CMSIS/Include/arm_math.h:5978-5983 | With a stride that divides the length the destination pointer goes round from its end to its base |
| CircularBuffer.DstStraight | CMSIS/Include/arm_math.h:5978-5983 | A destination pointer that never hits the end walks straight on, beyond it as well |
| CircularBuffer.DstHits | CMSIS/Include/arm_math.h:5978-5983 | For any stride a pointer that hits the end goes back to the base, and on from there as if it had started there |
| CircularBuffer.BackwardIff | CMSIS/Include/arm_math.h:5932-5935 | A negative stride stays in the buffer exactly until it would pass slot 0 |
| CircularBuffer.OffsetIsMod | CMSIS/Include/arm_math.h:5932-5935 | The offset after k steps is (w + k*inc) mod L |
| CircularBuffer.DelayLine | CMSIS/Include/arm_math.h:5905-5999 | After any block writes to a buffer of at most 65536 samples a read that starts d behind returns exactly the samples d ago |
| CircularBuffer.DelayedRead | CMSIS/Include/arm_math.h:5905-5999 | Calls of the write kernel on any source arrays and strides, then one of the read kernel: the destination holds the source samples d ago |
| CircularBuffer.SampledAt | CMSIS/Include/arm_math.h:5925-5930 | The k-th sample of a block is the source element at start + k srcInc |
| CircularBuffer.DelayLineIff | CMSIS/Include/arm_math.h:5905-5999 | This holds for all offsets, blocks, delays and lengths exactly for buffers of at most 65536 samples, because the offset is narrowed after every block |
| CircularBuffer.ScatterContiguous | CMSIS/Include/arm_math.h:5975-5983 | A unit stride below the end fills one stretch of the destination and nothing else |
| CircularBuffer.FullRound | CMSIS/Include/arm_math.h:5922-5942 | L writes return to the starting offset |
| CircularBuffer.StrideCoversIff | CMSIS/Include/arm_math.h:5922-5942 | L writes go to L different slots exactly if stride and length are coprime |
| CircularBuffer.StrideReachesAll | CMSIS/Include/arm_math.h:5922-5942 | With a coprime stride every slot is reached |
| Interpolation.BlendBounds | CMSIS/Include/arm_math.h:5581-5588 | The result is the floor of the interpolant less y0/2^20 and lies between the table values up to one unit |
| Interpolation.InterpolatesQ15 | CMSIS/Include/arm_math.h:5548-5590 | For every table and x = i + f/2^20: inside the table the kernel returns the floor of y0 + (y1 - y0) f/2^20 - y0/2^20, for negative x the first value, from the last index on the last value |
| Interpolation.InterpolatesQ7 | CMSIS/Include/arm_math.h:5605-5647 | The same for the Q7 kernel |
| Interpolation.MonotoneQ15 | CMSIS/Include/arm_math.h:5548-5590 | Non-decreasing over all x >= 0 for a non-decreasing table |
| Interpolation.MonotoneEverywhereIff | CMSIS/Include/arm_math.h:5563-5570 | Non-decreasing over all x exactly if the first value is not positive or the only one |
| Interpolation.NodeValue | CMSIS/Include/arm_math.h:5575-5588 | A node returns its table value exactly if it is the last one or not positive, else one less |
| Interpolation.RestUnused | CMSIS/Include/arm_math.h:5558-5582 | Only the first 2049 values of a longer table have an effect |
| Interpolation.Q7IsQ15 | CMSIS/Include/arm_math.h:5605-5647 | The Q7 kernel, with its other order of tests, follows the same law |
| Interpolation.MonotoneQ7 | CMSIS/Include/arm_math.h:5605-5647 | Monotone likewise |
| Clarke.ClarkeExactIff | CMSIS/Include/arm_math.h:5014-5033 | The transform is the plain scaled sum exactly where the second product and the sum fit |
| Clarke.ClarkeNearest | CMSIS/Include/arm_math.h:5014-5033 | For every pair: Ia, and the 32-bit number nearest to the sum of the two products, the second one cut to 32 bits where it does not fit |
| Clarke.InvClarkeNearest | CMSIS/Include/arm_math.h:5111-5130 | For every pair: Ialpha, and the 32-bit number nearest to the difference of the two quotients |
| Clarke.RoundTrip | CMSIS/Include/arm_math.h:5111-5130 | Forward and back: Ia exactly, Ib within -3 and +1 |
| Clarke.RoundTripSaturated | CMSIS/Include/arm_math.h:5111-5130 | Where the sum saturates Ib comes back too small by sqrt(3)/2 of the excess, within -4 and +1 units |
| Clarke.ProductsFit | CMSIS/Include/arm_math.h:5025-5029 | The first product always fits 32 bits, the second exactly up to abs(Ib) = 1859775393 |
| Clarke.WrapFlipsSign | CMSIS/Include/arm_math.h:5028-5032 | Beyond that the recovered current always has the wrong sign |
| BitReversal.Rbit | CMSIS/Include/cmsis_gcc.h:533-544 | The early-exit loop and the final shift give the 32-bit reversal of every word |
| BitReversal.BitOfReversed | CMSIS/Include/cmsis_gcc.h:521-525 | Bit i of the result is bit 31 - i of the input |
| BitReversal.Involution | CMSIS/Include/cmsis_gcc.h:521-525 | The reversal is its own inverse |
| NvicPriority.PackedRefinesMap | CMSIS/Include/core_cm0plus.h:804-839 | After any sequence of calls each interrupt reads back the last priority set for it, in its implemented bits, or its initial one |
| NvicPriority.SetThenGet | CMSIS/Include/core_cm0plus.h:804-839 | Setting one priority changes that one and no other |
| NvicPriority.SetThenGetField | CMSIS/Include/core_cm0plus.h:735-737 | No two interrupts share a field |
| NvicPriority.SetPriorityLayout | CMSIS/Include/core_cm0plus.h:735-816 | Of the 32 + 8 little-endian bytes of the registers, byte irq of IP, or byte irq + 8 of SHP for a core exception, becomes priority * 2^unused modulo 256, and every other byte is kept |
| NvicPriority.GetPriorityLayout | CMSIS/Include/core_cm0plus.h:735-839 | What is read is that byte divided by 2^unused |
| NvicPriority.Nvic.Set | CMSIS/Include/core_cm0plus.h:804-816 | The read-modify-write of one register word sets the byte of the interrupt, and keeps all others |
| NvicPriority.Nvic.GetPrio | CMSIS/Include/core_cm0plus.h:828-839 | The read of the byte of the interrupt |

## Left out

- TimerServer.Server.TimerIrqHandler: requires Complete, which says that its scripts are those of all the callbacks of a walk; callbacks with which the walk never ends (`EndlessWalk`) have no such scripts, and only their rounds are modelled (`WalkRound`).
- TimerServer.Server.TimerStart: requires ReadingExact when it takes a reading, the exact condition under which the 32-bit reading is right; the same holds for the other operations and the interrupt.
- TimerServer.Server.Initialise: requires that the object is not linked; the source does not test this, and its list is cut there otherwise.
- Reciprocal.AccuracyQ31: takes the accuracy of the seed as a hypothesis, and so does AccuracyQ15, because the contents of the reciprocal tables are only declared in `CMSIS/Include/arm_common_tables.h`.
- Reciprocal.RecipQ15: of a negative input only the value is stated; it has no relation to the reciprocal.
- Interrupt masking: each timer operation and the interrupt handler is one atomic step, and callbacks take no time.
- Callbacks are sequences of timer calls; what else a callback does, and TimerInit from a callback, is not part of this model.
- The 64-bit tick counter does not overflow in the model.
- The tick at which the board raises the interrupt (`HAL/src/timer-board.c:118-132`): interrupts may come at any time, early (spurious) or late.
- `TimerLowPowerHandler`, the low-power flag and `HasLoopedThroughMain`: a counter.
- Reciprocals of zero and of the most negative input, for which the source's own expressions are undefined.
- `clip_q63_to_q15` and `clip_q31_to_q7`, whose range tests are wider than their results; bilinear interpolation; the Q31 and floating-point controllers; the Q7 and 32-bit circular kernels, which have the same shape.
- NVIC numbers below -8, for which the index leaves the register array.
- Drivers, device headers, radio and Contiki code.
