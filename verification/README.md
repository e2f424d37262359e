# Timer manager engine, modelled in Dafny

This project models the timer engine of a small RTOS timer manager written in C (`TimerAPI.c`,
`TimerAPI.h`). The engine has four parts:

- a fixed-size **pool** of timer objects on a doubly-linked free list, with an 8-bit free count;
- a ten-bucket **expiry index**. Each `hash_table` entry heads a doubly-linked list of the timers
  whose match tick is congruent to the bucket number modulo 10, and counts them in 8 bits;
- the **timer API**: create, delete, start, stop and the three getters. Each returns the C code's
  error codes and drives a timer through the states UNUSED, STOPPED, RUNNING and COMPLETED;
- the **tick step**: one pass of the timer task's loop. It increments the 32-bit tick counter,
  walks the bucket of the new tick, and fires every entry whose match tick is that tick. A fired
  periodic timer is re-linked `period` ticks later; a fired one-shot timer becomes COMPLETED.

The C globals become one class, `TimerAPI.TimerManager`.

- Timer objects live in an arena `slots: array<Tmr>` and are addressed by index. NIL (-1)
  stands for a NULL `RTOS_TMR *`.
- The `RTOSTmrNext`/`RTOSTmrPrev` pointers become the index arrays `next` and `prev`.
- `hash_table`, `FreeTmrCount`, `FreeTmrListPtr` and `RTOSTmrTickCtr` become fields.
- Ghost fields hold the free list and each bucket as sequences of slots in link order, plus the
  list each slot is on (`home`).
- Callbacks are not executed. Each invocation is appended to a ghost log `fired` as an `Event`
  (tick, timer, callback, argument).
- The invariant `Valid()` has two parts:
  - The links are sound. Every list matches its sequence in both directions, each count equals
    its list's length modulo 2^8, the lists are disjoint, every slot is on the list `home`
    names, and a slot on no list has NULL links (`Arena.Linked`).
  - Every timer's state agrees with its list. UNUSED timers are on the free list and cleared.
    RUNNING timers are in the bucket of their match tick. STOPPED and COMPLETED timers are on no
    list.

Every API method keeps `Valid()`. The pointer splices are proved sound once each, on values, in
`Arena` and `Links`. The tick step is proved against `TickSpec.Scan`, a fold of `FireOne` over
the bucket's original list. `TickOutcome` then shows what that fold does timer by timer.

Files:

- `timer_types.dfy`: constants, `Tmr` and `HashObj` from `TimerAPI.h`, and 8/32-bit wrap-around.
- `links.dfy`: doubly-linked lists over index arrays, and the `Without` removal.
- `arena.dfy`: the whole link structure and the four splices.
- `tick_spec.dfy`: the specification of one tick's scan.
- `timer_api.dfy`: the class, the API, the pool and index functions, and the tick step.
- `findings.dfy`: `remove_hash_entry` as written, applied to a timer that is already unlinked.

## Model

| member | source | states |
|---|---|---|
| TimerTypes.StateCode | TimerAPI.h:27-30 | the four states have the C codes 1..4, so a successful `RTOSTmrStateGet` never returns 0 |
| TimerTypes.Cleared | TimerAPI.c:573-583 | a freed object keeps only its type tag; callback, argument, name, delay, period, option and match are cleared and the state is UNUSED |
| TimerTypes.Wrap8Step | TimerAPI.c:596 | an 8-bit count that equals a list's length modulo 2^8 still does so after one increment or one decrement, including across the wrap |
| TimerTypes.FirstExpiry | TimerAPI.c:211-228 | the first-expiry interval is the delay of a one-shot timer and the delay or the period of a periodic one, and it is never 0 for a timer that passed the creation checks |
| TimerTypes.StartedRemain | TimerAPI.c:211-228 | a started timer's match tick, `tick + interval` modulo 2^32, differs from the start tick, and the 32-bit distance back to it is exactly the interval |
| TimerTypes.PeriodicRearm | TimerAPI.c:466 | a periodic timer re-armed at `tick` is due again exactly `period` ticks later and never at `tick` itself |
| Links.Without | TimerAPI.c:389-425 | the bucket list after a removal is at most one entry shorter; `WithoutMultiset`, `WithoutOthers` and `WithoutAt` give exactly which entry goes and that the rest keep their order |
| Links.WithoutMultiset | TimerAPI.c:389-425 | removing a timer from a list takes out exactly one copy of it and nothing else |
| Links.WithoutOthers | TimerAPI.c:389-425 | removing one timer leaves every other timer's membership of the list unchanged |
| Links.WithoutAt | TimerAPI.c:389-425 | removing the timer at position `p` leaves the entries before and after it in their order |
| Links.WithoutAppend | TimerAPI.c:389-425 | removing an entry behind a prefix that does not hold it keeps the prefix |
| Links.PushHead | TimerAPI.c:368-381 | linking a new slot in front of a sound list gives a sound list headed by that slot |
| Links.PushTail | TimerAPI.c:327-337 | appending a new slot behind a sound list gives a sound list; this is how the pool is built |
| Links.Unlink | TimerAPI.c:398-416 | rejoining the neighbours of entry `p` gives a sound list of the other entries, with the head fixed when `p` was first |
| Arena.PushFree | TimerAPI.c:586-596 | `free_timer_obj`'s splice keeps the structure sound, with the slot at the head of the free list and the count up by one modulo 2^8 |
| Arena.PopFree | TimerAPI.c:546-559 | `alloc_timer_obj`'s splice keeps the structure sound, with the head detached, the rest of the free list intact and the count down by one |
| Arena.AllocFreeRestores | TimerAPI.c:531-600 | an alloc followed by a free of the object it returned gives back the same free count, free list, homes and `next`/`prev` links |
| Arena.PushBucket | TimerAPI.c:355-386 | `insert_hash_entry`'s splice keeps the structure sound; the slot heads its bucket, the count goes up by one, and every other list is unchanged |
| Arena.UnlinkBucket | TimerAPI.c:389-425 | `remove_hash_entry`'s splice keeps the structure sound; the slot leaves its bucket with the other entries in order and the count goes down by one |
| TimerAPI.ExpectedHome | TimerAPI.c:105-118 | the list a timer in each state is on, as the delete switch relies on: UNUSED on the free list, RUNNING in bucket `match % 10`, STOPPED and COMPLETED on no list; the four cases are exclusive |
| TimerAPI.CreateArgsOk | TimerAPI.c:43-60 | the option and delay/period checks of `RTOSTmrCreate` pass exactly when the timer they describe is well formed (one-shot with a nonzero delay, or periodic with a nonzero period) |
| TimerAPI.StopEvents | TimerAPI.c:281-295 | `RTOSTmrStop` runs at most one callback: none for OPT_NONE, the timer's callback with its own argument for OPT_CALLBACK, with the given argument for OPT_CALLBACK_ARG |
| TimerAPI.DueInBucket | TimerAPI.c:443-453 | the entries of bucket `tick % 10` that match `tick` are exactly the RUNNING timers whose match tick is `tick` |
| TimerAPI.TickOutcome | TimerAPI.c:443-480 | in one tick's scan, exactly the RUNNING timers due at the tick fire; their callbacks are logged in visiting order; every other timer keeps its fields and its buckets |
| TickSpec.Fire | TimerAPI.c:463-472 | a due timer changes only its match tick and state: a periodic one stays RUNNING with its match exactly `period` ticks (modulo 2^32) after the tick, any other becomes COMPLETED with its match kept |
| TickSpec.FireOne | TimerAPI.c:453-479 | a visited entry that does not match the tick changes nothing; one that matches is `Fire`d, its callback is appended to the log with its own argument, and every other timer is left as it was |
| TickSpec.Scan | TimerAPI.c:452-480 | the walk over the bucket's original list only appends to the callback log, at most one event per visited entry |
| TickSpec.DueEvents | TimerAPI.c:457 | the callbacks of a scan: at most one per visited entry, each at the tick, for a visited timer whose match is the tick, with that timer's callback and argument |
| TickSpec.ScanKeeps | TimerAPI.c:477-479 | an entry that is not visited, or is visited while not due, is left untouched |
| TickSpec.ScanKeepsLinked | TimerAPI.c:477-479 | an entry that the scan does not fire stays in exactly the buckets it was in |
| TickSpec.ScanFires | TimerAPI.c:453-472 | every visited due entry fires exactly once: re-armed `period` ticks later if periodic, COMPLETED otherwise |
| TickSpec.ScanLog | TimerAPI.c:457 | the scan logs exactly the callbacks of the due entries, with their own arguments, in visiting order |
| TickSpec.ScanTimer | TimerAPI.c:452-480 | one timer after the scan: `Fire`d if it was visited and due, unchanged otherwise |
| TickSpec.FireOneBucket | TimerAPI.c:460-475 | firing the entry under the cursor removes it from the scanned bucket; a periodic timer whose new match falls in the same bucket comes back at its head, among the entries already visited, so the scan does not meet it again |
| TimerAPI.TimerManager.RTOSTmrInit | TimerAPI.c:490-505 | the pool is built and the table cleared: every slot free in index order, the count is `timerCount` modulo 2^8, every bucket is empty, the tick is 0, and `Valid()` holds |
| TimerAPI.TimerManager.CreateTimerPool | TimerAPI.c:312-341 | the `for` loop links `timerCount` objects into the free list in index order, with the count set to `timerCount` truncated to 8 bits |
| TimerAPI.TimerManager.InitHashTable | TimerAPI.c:344-352 | every table entry gets count 0 and a NULL head |
| TimerAPI.TimerManager.AllocTimerObj | TimerAPI.c:531-565 | it fails, changing nothing, exactly when the count is 0 or the list is empty; otherwise it returns the old head with both links NULL, the free list loses it, and the count goes down by one |
| TimerAPI.TimerManager.FreeTimerObj | TimerAPI.c:568-600 | the object is cleared to UNUSED and pushed on the head of the free list, and the count goes up by one modulo 2^8 |
| TimerAPI.TimerManager.InsertHashEntry | TimerAPI.c:355-386 | the timer heads bucket `match % 10` and is counted there; the other entries keep their order and every other list is unchanged |
| TimerAPI.TimerManager.RemoveHashEntry | TimerAPI.c:389-425 | the timer leaves bucket `match % 10` with both of its own links NULL; the other entries keep their order, the count goes down by one, and every other list is unchanged |
| TimerAPI.TimerManager.SpliceOut | TimerAPI.c:398-421 | the pointer work of the removal: neighbours rejoined, the head fixed when the timer was first, the timer's links cleared, the count decremented |
| TimerAPI.TimerManager.RTOSTmrCreate | TimerAPI.c:38-84 | a bad option gives INVALID_OPT; a zero one-shot delay or a zero period gives INVALID_DLY; an empty pool gives NON_AVAIL. Each of these returns NIL and changes nothing. Success takes the free head and fills every field, STOPPED, with the name and state readable back |
| TimerAPI.TimerManager.RTOSTmrDel | TimerAPI.c:87-127 | a NULL handle gives INVALID, an untagged one INVALID_TYPE, an UNUSED one INACTIVE, each changing nothing; otherwise a RUNNING timer is unlinked from its bucket, the timer returns to the pool cleared, and SUCCESS is returned |
| TimerAPI.TimerManager.DeleteTimer | TimerAPI.c:104-123 | the switch on the state: STOPPED and COMPLETED timers go straight to the pool, a RUNNING one leaves its bucket first |
| TimerAPI.TimerManager.RTOSTmrNameGet | TimerAPI.c:130-151 | success exactly for an active timer, returning its name; otherwise NULL with the first failing check's code |
| TimerAPI.TimerManager.RTOSTmrRemainGet | TimerAPI.c:154-179 | success exactly for an active timer; for a RUNNING one, tick plus the result is the match tick modulo 2^32; otherwise 0 |
| TimerAPI.TimerManager.RTOSTmrStateGet | TimerAPI.c:182-197 | success exactly for a non-NULL tagged timer, UNUSED included, returning its state code; otherwise 0 |
| TimerAPI.TimerManager.RTOSTmrStart | TimerAPI.c:200-244 | an untagged handle gives INVALID_TYPE and an UNUSED timer INACTIVE, changing nothing; a RUNNING timer is left alone with SUCCESS; a STOPPED or COMPLETED timer is linked at the head of the bucket of `tick + first expiry` and becomes RUNNING, with exactly that interval remaining |
| TimerAPI.TimerManager.ArmTimer | TimerAPI.c:211-231 | a one-shot timer's first expiry is its delay; a periodic timer's is its delay, or its period when the delay is 0 |
| TimerAPI.TimerManager.RTOSTmrStop | TimerAPI.c:247-296 | the checks in order: NULL, wrong type, UNUSED, bad option, STOPPED, each with its code and changing nothing; otherwise the timer is STOPPED, unlinked if it was RUNNING, and the option's callback is logged |
| TimerAPI.TimerManager.StopTimer | TimerAPI.c:275-295 | the part of `RTOSTmrStop` past its checks; a RUNNING timer leaves its bucket, a COMPLETED one (already unlinked) does not, and the links stay sound |
| TimerAPI.TimerManager.StopRunning | TimerAPI.c:275-279 | a RUNNING timer leaves its bucket and becomes STOPPED; every other timer and list is kept |
| TimerAPI.TimerManager.FireTimer | TimerAPI.c:456-472 | the due branch: the callback is logged, the timer is unlinked, and then either re-linked `period` ticks later or marked COMPLETED; the engine moves exactly as `FireOne` says |
| TimerAPI.TimerManager.Rearm | TimerAPI.c:463-472 | after unlinking, a periodic timer goes to the head of the bucket of its new match tick; any other timer becomes COMPLETED on no list |
| TimerAPI.TimerManager.TickStep | TimerAPI.c:439-480 | the tick goes up by one modulo 2^32, and the engine ends as `Scan` of bucket `tick % 10`'s original list says, the links staying sound |
| TimerAPI.TimerManager.ScanAdvance | TimerAPI.c:452-480 | one iteration of the `while` loop moves the scan from k visited entries of the original list to k+1 |
| TimerAPI.TimerManager.ScanEntry | TimerAPI.c:453-479 | the loop body on the cursor entry: the successor is read before the entry is fired, so the walk continues along the original list |
| TimerAPI.TimerManager.ScanCursor | TimerAPI.c:453-454 | the cursor's `next` link is the following entry of the bucket, and a cursor entry that matches the tick is RUNNING |
| Findings.RemoveAsWritten | TimerAPI.c:389-425 | `remove_hash_entry` as written: it trusts the timer's own links, and always decrements the count of bucket `match % 10` |
| Findings.RemoveDetachedLosesBucket | TimerAPI.c:270-276 | on a timer that is on no list, the as-written removal sets the head of its match bucket to NULL and decrements a count that never included it; a nonempty bucket is lost and the structure is broken |
| Findings.StopCompletedLosesBucket | TimerAPI.c:270-276 | from any valid engine state: for a COMPLETED timer whose match bucket is nonempty, the timer's links are NULL, and the as-written removal leaves that bucket headless while every timer still in it is RUNNING and hashes there, breaking the structure |
| Findings.StopCompletedExample | TimerAPI.c:270-279 | a concrete valid two-timer state (A COMPLETED at match 5, B RUNNING at match 15, both agreeing with their lists) in which stopping A empties bucket 5 while B is still RUNNING there |

## Left out

- The pthread mutexes, the `timer_task_sem` semaphore, `pthread_create` and the blocking
  `sem_wait`. Each tick is one atomic `TickStep`, and the race between the timer task and API calls is
  not modelled.
- The infinite `while(1)` loop of `RTOSTmrTask` is modelled as one `TickStep` per signal.
- `RTOSTmrSignal`, `OSTickInitialize` and `print_program_info`: the external tick source
  (SIGALRM, POSIX timers) and console output.
- The `scanf`/`fprintf` I/O of `RTOSTmrInit`. The pool size is a constructor parameter.
- The `malloc` failure path of `Create_Timer_Pool` (`RTOS_MALLOC_ERR`). The arena is allocated
  whole.
- Pool memory is not initialised in C. Pool objects start zero-filled here, so a never-used
  object has type tag 0 and state UNUSED.
- Callbacks run through function pointers in C. Here each invocation is an `Event` appended to
  the ghost log `fired`; callbacks, arguments and names are opaque numbers.
- `Application.c`, the demonstration program, is not part of this model.
- The `default:` branch of `RTOSTmrDel`'s switch and the final `else` of `RTOSTmrStart`
  (INVALID_STATE) cannot be reached: the state is a four-valued datatype.
- TimerAPI.TimerManager.RTOSTmrStart: requires a non-NIL handle, because the C code dereferences it without a NULL
  check.
- TimerAPI.TimerManager.RTOSTmrStop: the C code's success path ends without a `return` and without writing `*perr`.
  The model returns `RTOS_TRUE` with `RTOS_SUCCESS`.
- TimerAPI.TimerManager.RTOSTmrStop: a COMPLETED timer is stopped without calling the removal (see Findings).
- Handles are slot indices checked to lie in the arena. A pointer to memory that is not a pool
  object cannot be expressed.

## Findings

| source | as written | input that shows it | evidently intended | confidence | as-written member | corrected member |
|---|---|---|---|---|---|---|
| TimerAPI.c:270-276 | `RTOSTmrStop` rejects only STOPPED timers and then calls `remove_hash_entry`. A COMPLETED timer is already unlinked (prev = next = NULL), so the removal sets the head of bucket `match % 10` to NULL and decrements its count | Pool of 2. A: one-shot, delay 5; B: one-shot, delay 15; both started at tick 0, so both are in bucket 5. At tick 5, A fires and becomes COMPLETED. `RTOSTmrStop(A, NONE)` then empties bucket 5, and B never fires at tick 15 | stopping a COMPLETED timer only changes its state; only a RUNNING timer is removed from its bucket | high (not executed) | Findings.StopCompletedLosesBucket | TimerAPI.TimerManager.StopTimer |
