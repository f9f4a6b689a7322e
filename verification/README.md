# A verified model of the eduOS kernel's core

eduOS is a small teaching kernel for x86. This project models the parts of it that are hard to
get right and proves what they are for:

- **Division** (`LongDivision`, `Digits`, `SignedDivision`): Knuth's Algorithm D on 16-bit digits
  with its trial digit, wrapping borrow and add-back, and the signed wrappers.
- **Scheduling** (`ReadyQueues`, `Scheduler`): the priority round-robin scheduler, once as a state
  machine over queues with theorems about every run, once as the code on linked queues and a
  bitmap, proved to take the steps of the state machine.
- **Locks and queues** (`Spinlock`, `IrqSpinlock`, `Semaphores`, `Blocking`, `Mailbox`,
  `LockedMailbox`): the recursive ticket lock, its variant that turns interrupts off, the semaphore
  with its ring of waiters, semaphores on top of the scheduler, and the bounded mailbox, first with
  abstract locks and then with two of those spinlocks, under every interleaving of any number of tasks.
- **Paging** (`PageTables`, `PageTree`, `PageCount`, `PageMap`, `Fork`, `Usage`): self-referencing page
  tables for both paging modes, those of the boot code included, mapping and unmapping of ranges,
  copying and dropping of address spaces, and the count of user pages across all of these.
- **Memory** (`Buddy`, `Vma`, `VmaRuns`, `Frames`): the splitting buddy allocator, the lists of virtual
  memory areas, the bitmap of page frames.
- **Numbers as text** (`Numbers`): `ksprintn`, the number fields of `kvprintf`, `strtoul`, `strtol`.

`Base`, `Arith` and `Bits` hold the types and the arithmetic that these share. Code that changes
arrays, lists or fields in place is modelled by methods and classes that do the same, each proved
against a specification; concurrent code is modelled by the atomic steps it takes. The configuration
constants MAX_TASKS, MAILBOX_SIZE and BITMAP_SIZE are arbitrary.

Where the model had to be told what the code leaves to its surroundings:

- One step of the scheduler is one section with interrupts off. A switch reported by `scheduler` is
  followed by `finish_task_switch`. The decrement and the change of status in `do_exit` are one step.
- Callers of semaphores are running tasks other than the idle task. At most 2^32 tasks use a ticket
  lock and it is nested fewer than 2^32 times.
- `get_pages` in `Fork` is the sequence of frames that it hands out, and the table for the scratch
  page exists. `palloc` in `Buddy` is the sequence of its answers, of which those that overlap a
  region in use count as failure. `kmalloc` in `Vma` and `VmaRuns` is failure or a node with arbitrary
  contents that is not handed out, one that `vma_free` has given back included.
- A request to the buddy allocator, with its prefix, is at most 2^30 bytes: `Buddy.ExponentDefined`
  shows that the shifts of int in `buddy_exp` are defined exactly up to there. `kfree` is given NULL or
  what `kmalloc` gave.
- The pages that `page_map` and `page_unmap` are given are plain, that is, no entry on the way to them
  carries PG_SELF, and PG_SELF is not among the flags asked for. Other pages are tables seen through a
  window (`PageMap.BootWindow`), or page numbers with the sign extension of an upper-half address,
  which lie outside the tables.
- Frame 0 is not free, because `get_pages` answers 0 for failure.
- `page_map_copy` finds no user page in the upper half of the 64-bit space, where it reads at an address
  that is not canonical (`Fork.PageRead`).
- The node that `vma_add`, `vma_alloc` or `vma_free` gets from `kmalloc` is not on the list, nor named by
  a node on it.
- The counter of available frames lies between 0 and the number of frames. `put_pages` is given
  frames that exist.
- ULONG_MAX, LONG_MAX and LONG_MIN are the 32-bit limits of `asm/limits.h` in both modes.

What turned out not to hold of the code is stated as it is, with the exact condition and an input
that shows it:

| property | holds exactly if | fails for |
|---|---|---|
| `create_task` keeps the scheduler's invariant | `ReadyQueues.CreateKeeps` | `ReadyQueues.CreateWithoutPages` |
| success of `page_map_copy` means a complete copy | `Fork.StatusOfCopy` | `Fork.IncompleteCopy` |
| `buddy_exp` has a defined answer | `Buddy.ExponentDefined` | `Buddy.TooLarge` |
| `get_pages` finds a free run | `Frames.ScanComplete` | `Frames.RunMissed` |
| `strtoul` finds the digits as C99 asks | `Numbers.StandardReading` | `Numbers.BareHex` |
| `strtoul` and `strtol` answer as C99 asks | `Numbers.StandardStrtoul`, `Numbers.StandardStrtol` | `Numbers.ClippedWord` |
| a number field with the flags -, 0 and # is printed as C99 asks | `Numbers.StandardPadding` | `Numbers.ZerosBehind`, `Numbers.PrecisionIgnored`, `Numbers.PrefixLower` |
| `virt_to_phys` of a mapped address is its translation | `PageMap.AddressSpace.VirtToPhysTranslates` | `PageMap.AddressSpace.VirtToPhysFaults` |
| `page_map_copy` can read a user page | `Fork.PageRead` | `Fork.PageUnread` |
| `page_map_drop` takes back what `page_map` has charged | `Usage.MapThenDrop` | `Usage.OneMorePage` |
| `vma_free` keeps the list doubly linked | `Vma.VmaList.FreeOnce` | `Vma.VmaList.SplitFirst` |
| `vma_free` keeps the backward links on the list | `Vma.FreeLoose` | `Vma.VmaList.SplitThenFreeFirst` |
| `vma_free` removes exactly the interval | `Vma.LostBetween` | `Vma.VmaList.SplitThenFreeNext`, `Vma.VmaList.SplitThenFreeBoth`, `Vma.VmaList.ReuseThenFree` |
| no link `prev` comes to name a node behind | `Vma.LinkEarlier`, `Vma.SplitEarlier`, `VmaRuns.OrderedExactly` | `Vma.VmaList.ReuseThenFree` |
| going along the list of areas comes to an end | `Vma.VmaList.Free`, `VmaRuns.EndlessExactly` | `Vma.VmaList.ReuseThenFree`, `VmaRuns.EndlessRun` |
| `vma_free` keeps the flags of what it leaves | `Vma.FlagsKept` | `Vma.FlagsLost` |
| `vma_alloc` finds a place if there is room | `Vma.LowestEligible` | `Vma.PlaceMissed` |
| nobody sleeps while there is a unit that nobody is on the way to take | `Mailbox.ServedExactly` | `Semaphores.Semaphore.LostWakeup` |
| nested `spinlock_irqsave_lock` returns | `IrqSpinlock.TwoDeep` | `IrqSpinlock.ThreeDeep` |

`dafny verify dfyconfig.toml` verifies the whole project.

## Model

| member | source | states |
|---|---|---|
| Digits.TrialDigitTheorem | libkern/qdivrem.c:255-280 | In any base and for any divisor of two or more digits, where the window is below base times the divisor, the digit that step D3 settles on is the true quotient digit or one more, and it is one more exactly if its multiple of the divisor exceeds the window |
| Digits.QuotientIsDigit | libkern/qdivrem.c:255-261 | The quotient of such a window is a single digit |
| LongDivision.Shl | libkern/qdivrem.c:120-127 | The digits hold the number times 2^sh; the rest of the array is untouched |
| LongDivision.TrialDigit | libkern/qdivrem.c:262-279 | The loop, entered in the middle or not, ends with the trial digit of the theorem, after at most two rounds when the divisor is normalised |
| LongDivision.MulSub | libkern/qdivrem.c:280-293 | The window holds window minus qhat times divisor modulo B^(n+1), every digit in range, and the high half of the last t is non-zero exactly if there was a borrow; only t relies on 32-bit wrap-around |
| LongDivision.BorrowTest | libkern/qdivrem.c:294-299 | There is a borrow exactly if qhat times the divisor exceeds the window |
| LongDivision.AddBack | libkern/qdivrem.c:301-307 | The window holds its value plus the divisor modulo B^(n+1) |
| LongDivision.AddBackRestores | libkern/qdivrem.c:294-307 | After a borrow one add-back leaves exactly the window minus (qhat - 1) times the divisor |
| LongDivision.DigitStep | libkern/qdivrem.c:252-308 | One round of D3 to D6: digit and new window are quotient and remainder of the window by the divisor |
| LongDivision.LongDivide | libkern/qdivrem.c:246-309 | All rounds, for any number of digits: the quotient digits and the remainder left in the array divide the dividend |
| LongDivision.Normalise | libkern/qdivrem.c:233-244 | Dividend and divisor are multiplied by the same power of two and the divisor starts with a digit of at least B/2 |
| LongDivision.Denormalise | libkern/qdivrem.c:316-322 | The remainder is divided by that power of two |
| LongDivision.OneDigitDivide | libkern/qdivrem.c:191-217 | Exercise 16: quotient and remainder of four digits by one |
| LongDivision.ProgramD | libkern/qdivrem.c:229-330 | From the stripped operands to quotient and remainder |
| LongDivision.GeneralDivide | libkern/qdivrem.c:220-330 | The general path gives the quotient and, if wanted, the remainder |
| LongDivision.LoadDigits | libkern/qdivrem.c:178-188 | The four digits stand for the 64-bit word |
| LongDivision.Qdivrem | libkern/qdivrem.c:137-331 | For every 64-bit dividend and divisor: floor of the quotient, the remainder if wanted, or the divide error exactly for divisor zero |
| SignedDivision.TruncatedUnique | libkern/divdi3.c:50-67 | Quotient and remainder of a division that truncates towards zero (section 6.5.5 of ISO C99) are determined by the operands |
| SignedDivision.SignCases | libkern/moddi3.c:52-69 | Choosing the signs from those of the operands turns the division of the absolute values into the truncating one |
| SignedDivision.Divdi3 | libkern/divdi3.c:50-67 | The truncated quotient for every pair of 64-bit operands, except that the smallest number divided by -1 wraps to itself; the divide error exactly for divisor zero |
| SignedDivision.Moddi3 | libkern/moddi3.c:52-69 | The remainder that belongs to the truncated quotient, with the sign of the dividend |
| ReadyQueues.ScheduleKeeps | kernel/tasks.c:331-393 | `scheduler` keeps the invariant: each READY task is on the queue of its own priority, once, and on no other; queued tasks are READY; at most one task is RUNNING and it is current; nr_tasks counts READY and RUNNING tasks; the idle task is never queued. The one task set aside is another than the new current one |
| ReadyQueues.FinishKeeps | kernel/tasks.c:84-116 | `finish_task_switch` puts the task that was set aside back and keeps the invariant |
| ReadyQueues.CreateKeeps | kernel/tasks.c:160-224 | `create_task` keeps the invariant exactly if it refuses its arguments, finds no slot, or gets a frame |
| ReadyQueues.CreateWithoutPages | kernel/tasks.c:189-191 | Without a frame the slot is left READY and unqueued, which breaks the invariant |
| ReadyQueues.CreateAnswers | kernel/tasks.c:160-224 | `create_task` answers EINVAL exactly for bad arguments and ENOMEM exactly without a slot or a frame; else the task is in the lowest free slot, READY, with the priority asked for, last in the queue of that priority and in no other, and every other task, queue and the current task are as before |
| ReadyQueues.WakeKeeps | kernel/tasks.c:240-280 | `wakeup_task` keeps the invariant for every task |
| ReadyQueues.BlockKeeps | kernel/tasks.c:287-329 | `block_current_task` keeps the invariant |
| ReadyQueues.ExitKeeps | kernel/tasks.c:120-141 | `do_exit` of a running task keeps the invariant |
| ReadyQueues.WakeEffect | kernel/tasks.c:240-280 | `wakeup_task` makes a blocked task READY and last in the queue of its priority, and changes nothing else; for any other task nothing |
| ReadyQueues.FinishEffect | kernel/tasks.c:84-112 | `finish_task_switch` puts the task that was left last in its queue if it is READY, and changes nothing else |
| ReadyQueues.ScheduleEffect | kernel/tasks.c:331-393 | `scheduler` lets the current task go on exactly if it can run and no task of its priority or a higher one is queued; else the head of the highest queue leaves it and runs, or the idle task; a FINISHED task frees its slot, a RUNNING one becomes READY, nobody else changes |
| ReadyQueues.AlwaysEffect | kernel/tasks.c:84-393 | Every step of every run does what is said above; `block_current_task` makes a RUNNING task BLOCKED and `do_exit` makes it FINISHED, with one runnable task less and nothing else changed |
| ReadyQueues.StepKeeps | kernel/tasks.c:84-393 | Every step keeps the invariant |
| ReadyQueues.InitHolds | kernel/tasks.c:67-82 | The state after `multitasking_init` satisfies it |
| ReadyQueues.AlwaysConsistent | kernel/tasks.c:84-393 | The invariant holds in every state of every run |
| ReadyQueues.ScheduleChooses | kernel/tasks.c:331-393 | After `scheduler` the current task has at least the priority of every READY task, was READY if it is new, and is the idle task only if nothing is runnable |
| ReadyQueues.AlwaysBestChoice | kernel/tasks.c:331-393 | The same for every call of `scheduler` in every run |
| ReadyQueues.WaitRound | kernel/tasks.c:346-375 | One round of `scheduler` moves a waiting task one place up, or gives it the processor |
| ReadyQueues.WaitStep | kernel/tasks.c:84-375 | No other step that readies nothing of higher priority moves it back |
| ReadyQueues.BoundedWait | kernel/tasks.c:84-375 | In every run without a task of higher priority becoming ready, the task at place k of the highest queue has the processor right after round k + 1 |
| Scheduler.MsbIsHighest | kernel/tasks.c:346-347 | When the bitmap marks the queues that are not empty, its most significant bit is the highest of them, and with no bit set `msb` answers more than the highest priority |
| Scheduler.Kernel.constructor | kernel/tasks.c:67-82 | A valid kernel with the idle task current and all queues empty |
| Scheduler.Kernel.Link | kernel/tasks.c:97-108 | The linked queue of the priority gains the task at its end, for the empty and the non-empty queue |
| Scheduler.Kernel.FinishTaskSwitch | kernel/tasks.c:84-112 | On linked queues and bitmap the effect is that of the step above, and heads, links, tails and bitmap stay consistent: bit p set iff queue p non-empty iff its tail non-null |
| Scheduler.Kernel.WakeupTask | kernel/tasks.c:240-280 | Likewise for `wakeup_task`; it reports success exactly for a blocked task |
| Scheduler.Kernel.Unlink | kernel/tasks.c:307-323 | The links, heads, tails and the bitmap after the unlinking, for any links; for a task that is on no queue this changes nothing but the bit of an empty queue |
| Scheduler.UnlinkQueue | kernel/tasks.c:307-318 | For a task on a doubly linked queue the unlinking takes just that task off, in both directions, and head and tail stay right |
| Scheduler.Kernel.BlockCurrentTask | kernel/tasks.c:287-329 | Likewise for `block_current_task` |
| Scheduler.Kernel.RunScheduler | kernel/tasks.c:331-393 | Likewise for `scheduler`; a switch is reported exactly if the current task changes, and the task taken from a queue is never INVALID |
| Scheduler.Kernel.CreateNewTask | kernel/tasks.c:160-224 | Likewise for `create_task`, whatever its arguments and outcome; the answer, the new task and its queue are as in `CreateAnswers` |
| Scheduler.Kernel.DoExit | kernel/tasks.c:120-141 | Likewise for `do_exit`; the task is FINISHED and nothing else changes |
| Spinlock.EnterKeeps | include/eduos/spinlock.h:90-109 | The steps of `spinlock_lock` after the ticket is served keep the invariant |
| Spinlock.LeaveKeeps | include/eduos/spinlock.h:116-127 | The steps of `spinlock_unlock` keep it |
| Spinlock.StepKeeps | include/eduos/spinlock.h:90-127 | Every atomic step of any task keeps it |
| Spinlock.AlwaysInv | include/eduos/spinlock.h:58-127 | It holds in every state of every run |
| Spinlock.AlwaysSafe | include/eduos/spinlock.h:58-127 | In every interleaving at most one task holds the lock, a task in the critical section holds it, tickets are granted in order, a task that calls lock sees itself as owner exactly if it is inside, and an unlock releases exactly if it matches the outermost lock, though the 32-bit counters wrap |
| Spinlock.NestingCounted | include/eduos/spinlock.h:90-127 | In every run a task in the critical section has exactly as many calls of lock without an unlock as the counter says, a task outside has none, and a task that calls lock goes on without a ticket exactly if it has another open call |
| Spinlock.GivesBack | include/eduos/spinlock.h:116-127 | In every run a call of unlock serves the next ticket, once, exactly if it leaves the task without an open call; otherwise no ticket is served and the task goes on inside |
| Spinlock.ServedOnlyBack | include/eduos/spinlock.h:116-127 | In every run a ticket is served only by the holder, after the unlock that matches its outermost lock |
| Spinlock.FirstComeFirstServed | include/eduos/spinlock.h:101-105 | In every run, while the task that drew its ticket first still waits, the one that drew later is not let in |
| IrqSpinlock.TwoDeep | include/eduos/spinlock.h:137-214 | A sequence of nested calls of one task runs through exactly if it is never more than two deep, because the test is `counter == 1`; when all are undone the lock is free and interrupts are on exactly if they were on before |
| IrqSpinlock.ThreeDeep | include/eduos/spinlock.h:150-178 | An instance: two nested calls return, the third waits for its own ticket |
| Semaphores.FreshRing | include/eduos/semaphore.h:58-71 | A new semaphore has an empty ring |
| Semaphores.JoinRing | include/eduos/semaphore.h:120-139 | A waiter that joins finds a free entry, and the occupied entries stay one window that ends before pos, holding each waiter once in order of arrival |
| Semaphores.ScanFindsOldest | include/eduos/semaphore.h:156-166 | The circular search from pos finds the waiter that came first, or nobody exactly if there is none |
| Semaphores.PostRing | include/eduos/semaphore.h:146-171 | A post wakes the oldest waiter exactly if the value was 0 and somebody waits, and takes just that entry away |
| Semaphores.Semaphore.constructor | include/eduos/semaphore.h:58-71 | The new object is a fresh semaphore |
| Semaphores.Semaphore.TryWait | include/eduos/semaphore.h:96-113 | Takes one, and says so, exactly if there is one; else changes nothing |
| Semaphores.Semaphore.WaitOnce | include/eduos/semaphore.h:120-139 | One turn of `sem_wait`: takes one or enters the ring |
| Semaphores.Semaphore.PostOnce | include/eduos/semaphore.h:146-171 | The array after the search is that of the specification |
| Semaphores.Semaphore.LostWakeup | include/eduos/semaphore.h:120-171 | For any two tasks: both wait, two posts come before the first tries again, and it takes its unit; then the second still waits although there is a unit |
| Blocking.KernelKeepsBlocked | kernel/tasks.c:84-393 | Steps of the scheduler that neither block nor wake leave the set of blocked tasks alone |
| Blocking.StepKeeps | include/eduos/semaphore.h:96-171 | Semaphores on top of the scheduler: every step keeps that each ring holds exactly the tasks blocked on it, no task waits for two semaphores, initial + posts - waits is never negative, and value is that modulo 2^32 |
| Blocking.SignalEnabled | include/eduos/semaphore.h:146-171 | A post is never stuck: the task in the ring is always one that can be woken |
| Blocking.AlwaysInv | include/eduos/semaphore.h:58-171 | That invariant holds in every state of every run with non-idle callers |
| Blocking.SignalWakesOldest | include/eduos/semaphore.h:146-171 | In every run a post adds a unit; at the value 0 it makes the longest-waiting task READY, last in the queue of its priority, and touches no other task; at a value above 0, or if nobody waits, it does nothing else |
| Blocking.WaitTakesOrBlocks | include/eduos/semaphore.h:96-139 | In every run a wait that finds a unit takes it and goes on; without one `sem_trywait` changes nothing and `sem_wait` blocks the running task, which waits behind all others |
| Blocking.ValueCounts | include/eduos/semaphore.h:58-171 | In every run the value of a semaphore is its first value plus the posts less the waits that found a unit, counted from the calls, modulo 2^32 |
| Mailbox.StepKeeps | include/eduos/mailbox.h:68-127 | Every step of any producer or consumer keeps the invariant on semaphores, locks, positions and buffer contents |
| Mailbox.AlwaysInv | include/eduos/mailbox.h:42-127 | It holds in every state of every run |
| Mailbox.FirstInFirstOut | include/eduos/mailbox.h:68-127 | In every interleaving the mails fetched are a prefix of the mails posted, and free boxes, mails and operations in flight add up to MAILBOX_SIZE |
| Mailbox.NoOverwriteNoUnderrun | include/eduos/mailbox.h:68-127 | No slot is written before its mail has been read, and none is read before it is written |
| Mailbox.PutsWhatWasGiven | include/eduos/mailbox.h:68-95 | In every run what a task puts into the buffer is the mail of its last call of post or trypost |
| Mailbox.PostReturns | include/eduos/mailbox.h:68-95 | When post or trypost returns, the mail of that call has been put in, in a step of that call, or it was trypost and there was no free box |
| Mailbox.FetchReturns | include/eduos/mailbox.h:97-127 | When fetch or tryfetch returns, the caller has the mail that was next in order when this call read, or it was tryfetch and no mail was announced |
| Mailbox.HandedOutOnce | include/eduos/mailbox.h:97-127 | No mail is read twice, and they are read in order |
| Mailbox.AlwaysSleep | include/eduos/semaphore.h:120-171 | In every run the rings of the two semaphores hold exactly the tasks that sleep on them, the longest sleeping first |
| Mailbox.SignalWakes | include/eduos/semaphore.h:146-171 | A signal that finds the value 0 and somebody asleep makes the one who sleeps longest try again, and nobody else |
| Mailbox.ServedExactly | include/eduos/semaphore.h:146-171 | In a run nobody sleeps while there is a unit that nobody is on the way to take, exactly if no signal comes, while somebody sleeps, at a value above 0 that has a unit for everybody on the way |
| LockedMailbox.LockStep | include/eduos/spinlock.h:90-127 | A task in `spinlock_lock` or `spinlock_unlock` of a mailbox can always make its next step, which keeps the lock's invariant, and it goes on only as the holder |
| LockedMailbox.StepRefines | include/eduos/mailbox.h:68-127 | With both spinlocks in place, every atomic step of any task keeps the invariant of mailbox and locks, and is a step of the mailbox with abstract locks, at which a task may also turn round |
| LockedMailbox.NeverStuck | include/eduos/mailbox.h:68-127 | A task at a lock can always make a step |
| LockedMailbox.AlwaysInv | include/eduos/mailbox.h:42-127 | That invariant holds in every state of every run |
| LockedMailbox.FirstInFirstOut | include/eduos/mailbox.h:68-127 | Order and accounting of the mails hold in every interleaving of the steps of mailbox and spinlocks |
| LockedMailbox.RunRefines | include/eduos/mailbox.h:68-127 | Every run with the spinlocks is a run of the mailbox, so that what holds of all runs there holds here |
| LockedMailbox.PutsWhatWasGiven | include/eduos/mailbox.h:68-95 | With the spinlocks, what a task puts in is the mail of its last call |
| LockedMailbox.FetchReturns | include/eduos/mailbox.h:97-127 | With the spinlocks, a fetch that returns has the mail that was next when it read, or was tryfetch and found none |
| PageTables.WalkSplit | arch/x86/mm/page.c:61-89 | A walk through several levels is a walk through the upper ones and then one through the lower |
| PageTables.WindowBases | arch/x86/mm/page.c:61-89 | The addresses in the tables `self` and `other` are those that the levels and the table sizes call for, in both modes |
| PageTables.SelfWindow | arch/x86/mm/page.c:61-66 | With the root's last slot referring to the root, the hardware's walk (sections 4.3 and 4.5 of the Intel SDM, volume 3A) of the address of `self[lvl][i]` reaches the table with entry i of level lvl, at exactly that entry, and faults exactly if there is no such table |
| PageTables.OtherWindow | arch/x86/mm/page.c:68-89 | With the last slot but one referring to another root, `other[lvl][i]` is the same entry of the other tree |
| PageTree.GrowWalk | arch/x86/mm/page.c:139-151 | A new empty table adds itself and changes no other plain path, nor which paths are plain |
| PageTree.PageWalk | arch/x86/mm/page.c:160-161 | An entry of the last level changes the translation of its page, no other plain path, and not which paths are plain |
| PageTree.WriteSelfMapped | arch/x86/mm/page.c:107-171 | Writing on a plain path keeps the reference of the root to itself |
| PageMap.BootTree | arch/x86/kernel/entry.asm:703-726 | The boot tables, whose last slots all refer to the root, satisfy what the operations need, in both modes |
| PageMap.BootPlain | arch/x86/kernel/entry.asm:703-726 | In them every page is plain whose table is reached without a last slot, whatever its last index, when the lowest table refers to no root |
| PageMap.BootWindow | arch/x86/kernel/entry.asm:717-724 | A page behind the last slot of the second of four tables is that table, so that writing the table changes the page: such pages are not plain |
| PageMap.AddressSpace.Boot | arch/x86/kernel/entry.asm:703-726 | The address space of the boot code is valid in both modes, has those plain pages, and all its tables are for users |
| PageTree.EntryTranslates | arch/x86/mm/page.c:91-99 | The last-level entry decides the translation of a page |
| PageMap.AddressSpace.SelfReaches | arch/x86/mm/page.c:61-66 | In every valid address space the self window reaches the entry that the methods below access, at every level and index |
| PageMap.AddressSpace.NewTable | arch/x86/mm/page.c:139-151 | A table hung under an absent entry: all plain pages keep their entries, all tables on plain paths stay reachable |
| PageMap.AddressSpace.MakeTable | arch/x86/mm/page.c:130-152 | After it the table is there, a new one with the given flags and PG_PRESENT, PG_USER and PG_RW but not PG_XD, or the frames have run out; a new table is one more user entry |
| PageMap.AddressSpace.MakeTables | arch/x86/mm/page.c:126-152 | A whole level of an index range, every entry accessed only when its table is there |
| PageMap.AddressSpace.MakeLevel | arch/x86/mm/page.c:113-152 | One turn of the outer loop: the indices of the range at this level cover those of the next, whose tables are there afterwards |
| PageMap.AddressSpace.MapPages | arch/x86/mm/page.c:153-162 | The last level of the range |
| PageMap.AddressSpace.Map | arch/x86/mm/page.c:107-171 | For a range of plain pages, the empty one included: on success page j of the range has frame + j with the given flags and every other plain page keeps its entry; on failure no plain page has changed and no frame is free; table frames come from the free ones and are charged to user_usage exactly if PG_USER is given. The number of user entries grows by the new tables and by the new user pages |
| PageMap.AddressSpace.Unmap | arch/x86/mm/page.c:174-192 | The entries of the range are zero, every other plain page keeps its entry, no table goes; the user entries shrink by the user pages of the range |
| PageMap.AddressSpace.VirtToPhysTranslates | arch/x86/mm/page.c:91-99 | For every canonical address that is mapped, `virt_to_phys`, which reads the entry at a wrapping linear address, gives the hardware's translation exactly if the page number with its sign extension is one of the window; otherwise it faults |
| PageMap.AddressSpace.VirtToPhysFaults | arch/x86/mm/page.c:91-99 | An instance in every 64-bit space: the last page is the root table, and `virt_to_phys` of it faults |
| PageCount.WriteOwned | arch/x86/mm/page.c:196-208 | Where all tables are for users, writing an entry anywhere changes the number of user entries that `page_map_drop` visits by what it changes at that entry |
| PageCount.PageOwned | arch/x86/mm/page.c:160-161 | Mapping or unmapping a page changes that number by that page |
| PageCount.GrowOwned | arch/x86/mm/page.c:139-151 | A new table adds one |
| Fork.Machine.CopyPage | arch/x86/mm/page.c:236-239 | A user page that can be read is copied by way of the scratch page; no other page and no copied table changes |
| Fork.Machine.CopyTable | arch/x86/mm/page.c:222-250 | `traverse`: frames are taken in order, the copy is complete if they suffice, and success is reported exactly if every user entry of this table got its own frame |
| Fork.Machine.PageMapCopy | arch/x86/mm/page.c:220-265 | The child's table is a copy when the frames suffice, user_usage grows by the frames taken, the parent's entries and pages are as before save for the scratch page and the slot of the other root |
| Fork.ChildTranslations | arch/x86/mm/page.c:220-265 | After a complete copy every page below the self window is, in the child, a frame of its own with the parent's contents (user pages), the parent's frame (other pages), or absent (unmapped pages and those behind a self reference), with the same flags in every entry on the way to a page that is there |
| Fork.FateIsCopy | arch/x86/mm/page.c:220-265 | A page gets a frame of its own exactly if every entry on the way to it is there and carries PG_USER |
| Fork.OwnFrames | arch/x86/mm/page.c:226-239 | Different user pages get different frames |
| Fork.Machine.DropTable | arch/x86/mm/page.c:196-208 | `traverse` of `page_map_drop` releases the frames of the specification in post-order and takes each off user_usage |
| Fork.DropReleases | arch/x86/mm/page.c:194-265 | Dropping any copied table releases exactly the frames that its copy took, each once |
| Fork.DropChild | arch/x86/mm/page.c:194-265 | Dropping a copied address space releases exactly the frames of the copy, as many as were charged |
| Fork.Machine.CopyThenDrop | arch/x86/mm/page.c:194-265 | A complete copy followed by dropping it gives back exactly the frames taken, each once, and brings user_usage back to where it was |
| Fork.StatusOfCopy | arch/x86/mm/page.c:224-250 | A complete copy is reported as success; an incomplete one is too exactly if the frames ran out inside the last user table of the root |
| Fork.IncompleteCopy | arch/x86/mm/page.c:220-265 | An instance: this call of `page_map_copy` returns success although fewer frames were taken than the copy needs |
| Fork.WindowsDuringCopy | arch/x86/mm/page.c:220-250 | All through the copy the self window shows the entries of the parent and the other window those of the child, by `PageTables.SelfWindow` and `PageTables.OtherWindow` |
| Fork.PageRead | arch/x86/mm/page.c:239 | The address at which a user page is read is canonical exactly for the lower half of the pages in 64-bit mode and for all in 32-bit mode, and then translates to that page |
| Fork.PageUnread | arch/x86/mm/page.c:239 | An instance: the first page of the upper half |
| Usage.ReleasedOwned | arch/x86/mm/page.c:196-208 | `page_map_drop` releases as many frames as there are user entries |
| Usage.Drop | arch/x86/mm/page.c:194-218 | It takes that number off user_usage |
| Usage.MapThenDrop | arch/x86/mm/page.c:107-218 | `page_map` followed by `page_map_drop` leaves user_usage below what the drop alone leaves by exactly the user pages that were none before, and for kernel pages by the tables made for them; for user pages the count is the same exactly if all of them were user pages already |
| Usage.OneMorePage | arch/x86/mm/page.c:107-218 | In every such space: mapping one page for a user that was no user page leaves the count one too low after the drop |
| Buddy.SplitKeeps | mm/malloc.c:87-96 | Splitting a block keeps that the blocks partition the regions: disjoint, covering the same addresses, sizes with the same sum |
| Buddy.RegionKeeps | mm/malloc.c:81-84 | So does a new region that becomes one block |
| Buddy.Best | mm/malloc.c:44-50 | The smallest exponent from exp on with a free block, all lists below it being empty |
| Buddy.CutLists | mm/malloc.c:87-96 | Cutting a block of size j down to exp leaves one upper half at the head of each list in between |
| Buddy.Heap.constructor | mm/malloc.c:38-41 | The empty heap is valid |
| Buddy.Heap.LargeAvail | mm/malloc.c:44-50 | True exactly if some list from exp to BUDDY_MAX - 1 is not empty |
| Buddy.Heap.Palloc | mm/malloc.c:132-161 | A new region that overlaps none exactly if the next answer is one, else failure and no change |
| Buddy.Heap.PutHalf | mm/malloc.c:92-96 | The block is halved and its second half heads the list of its size |
| Buddy.Heap.BuddyGet | mm/malloc.c:67-98 | The whole new state: the first of the smallest blocks that are large enough is taken and its upper halves head the lists in between; fails exactly if every list from exp to BUDDY_MAX - 1 is empty and `palloc` fails for 2^max(exp, BUDDY_ALLOC), asked only then; indexes no list past BUDDY_MAX; no other block changes |
| Buddy.Heap.BuddyPut | mm/malloc.c:104-111 | The block heads the list of the exponent in its prefix |
| Buddy.ExponentDefined | mm/malloc.c:53-64 | `buddy_exp`, whose shifts are those of a 32-bit int, has a defined answer exactly for sizes up to 2^30, and it is then the smallest sufficient exponent |
| Buddy.TooLarge | mm/malloc.c:53-64 | An instance: for 2^30 + 1 the shift goes into the sign bit |
| Buddy.BuddyExp | mm/malloc.c:53-64 | The loop computes that exponent, or stops where the shift is not defined |
| Buddy.Heap.Kmalloc | mm/malloc.c:183-207 | Keeps the heap valid, that is free and live blocks partition the regions; fails exactly for size 0 or when nothing large enough is free and `palloc` fails; otherwise a new live block of sufficient and minimal size; the whole new state, earlier live blocks unchanged |
| Buddy.Heap.Kfree | mm/malloc.c:209-223 | Keeps the heap valid, ends the life of exactly that block and puts it at the head of the list of its size; NULL is ignored |
| Buddy.Run | mm/malloc.c:183-223 | Over every run in which a client gives back only what it holds: free and live blocks partition the regions, what is held is live, and heap and held pieces are exactly those that the requests, served one by one, lead to |
| Buddy.LiveApart | mm/malloc.c:183-223 | What callers hold never overlaps |
| Vma.GapIffNoConflict | mm/vma.c:284-300 | In a sorted list some gap takes the interval exactly if no area conflicts with it |
| Vma.InsertKeeps | mm/vma.c:302-320 | Inserting into such a gap keeps the order and adds exactly the interval |
| Vma.FirstIsLowest | mm/vma.c:131-144 | The first gap that qualifies is the lowest |
| Vma.AllocKeeps | mm/vma.c:131-174 | Taking a gap, by a new area or by extending the one before, keeps the order and adds exactly the interval returned, which was free |
| Vma.LowestEligible | mm/vma.c:117-144 | The search finds the lowest address in the address space that the flags call for at which the area and one byte more are free and before which no area lies or one that ends within the address space; it fails exactly if there is none |
| Vma.PlaceMissed | mm/vma.c:131-144 | An instance: with one area just below VMA_KERN_MIN no place is found in the empty kernel space |
| Vma.AllocMaps | mm/vma.c:151-173 | The interval gets the flags asked for and all other addresses keep theirs |
| Vma.FreeKeeps | mm/vma.c:214-245 | Each of the four cases keeps the order and removes exactly the interval |
| Vma.FreedMaps | mm/vma.c:214-245 | What is left keeps its flags, except that the second part of a split has those that the new node came with |
| Vma.FlagsKept | mm/vma.c:232-244 | So the flags are kept exactly unless an area is split and the new node came with other flags |
| Vma.FlagsLost | mm/vma.c:232-244 | An instance: the second part gets the flags 7 of the node |
| Vma.VmaList.Link | mm/vma.c:312-320 | The node is linked between its neighbours in forward direction, and the backward links of the node and its successor are set |
| Vma.VmaList.Add | mm/vma.c:252-323 | On any sorted list, whatever the backward links name, with any node that is not on it: keeps it sorted and disjoint, and doubly linked if it was; fails exactly for an interval that is empty, out of range or in conflict, or without a node; adds exactly the interval, as one area with the given flags, and says which links are set; where no link named a node behind, that stays so exactly if no link before the new node's place named it |
| Vma.VmaList.Alloc | mm/vma.c:106-177 | On any such list, with any such node: keeps it as `vma_add` does, with the same condition on the node; takes the first gap that qualifies and returns its start, which is not 0, or returns 0 and changes nothing exactly if none qualifies or there is no node and the area before cannot be extended; the address is the lowest eligible one, so user areas lie from KERNEL_SPACE on and end below the limit and kernel areas from VMA_KERN_MIN on and end below KERNEL_SPACE, and exactly the interval has got the flags |
| Vma.VmaList.ValidIsUsable | mm/vma.c:106-323 | On a sorted, doubly linked list no link names a node behind, and none names a node that is not on the list |
| Vma.VmaList.Unlink | mm/vma.c:219-226 | Takes off the nodes between the one that `prev` names and `next`; a node behind the first whose `prev` names no other node of the list stays on it; if `prev` names a node behind, that node's `next` leads back; the `prev` of the next node is set in every case |
| Vma.VmaList.BentCircles | mm/vma.c:219-226 | Going along a list that leads back never ends |
| Vma.VmaList.BentMeets | mm/vma.c:219-226 | On such a list exactly the nodes up to the one that leads back are met, save for the first if it was taken off |
| Vma.VmaList.SplitNode | mm/vma.c:232-244 | The forward list gains the second part; the `prev` of the successor stays as it was, so that it skips the new node |
| Vma.VmaList.Free | mm/vma.c:179-250 | On any list, whatever the backward links name, with any node that is not on it: EINVAL exactly for an empty or straddling interval or one that no area holds, ENOMEM exactly for a split without a node; the list keeps its end exactly unless a whole area goes whose `prev` names a node behind, and then it leads back from there; else the exact new nodes, backward links and areas, which stay sorted; where no link named a node behind, that stays so exactly if a split's new node was named by no link before its place; the backward links stay on the list exactly if no node is orphaned |
| Vma.VmaList.FreeOnce | mm/vma.c:179-250 | On a valid list it removes exactly the interval and keeps the forward order, and the list stays doubly linked exactly unless an area with a successor was split |
| Vma.LooseSurvives | mm/vma.c:219-226 | Where every backward link names an earlier node, unlinking leaves that so exactly if no node behind the next one names a node that comes off |
| Vma.FreeLoose | mm/vma.c:179-250 | `vma_free` keeps every backward link on the list exactly unless it unlinks a node and orphans another |
| Vma.VmaList.SplitFirst | mm/vma.c:232-244 | The split of any area with a successor, as a call of `vma_free` on a valid list |
| Vma.VmaList.SplitThenFreeNext | mm/vma.c:179-250 | On any valid list: after such a split, freeing the successor reports success and takes the second part of the split area with it |
| Vma.VmaList.SplitThenFreeFirst | mm/vma.c:179-250 | On any valid list: after such a split, freeing the first part gives its node back and leaves the successor with a `prev` that names it |
| Vma.VmaList.SplitThenFreeBoth | mm/vma.c:179-250 | On any valid list: after such a split, freeing the first part and then the successor reports success twice and the successor is still there |
| Vma.VmaList.ReuseThenFree | mm/vma.c:179-323 | On any valid list: after such a split the first part is freed and its node handed out again for an area behind the successor; then freeing the successor reports success, the successor is still met and the list has no end |
| Vma.LostBetween | mm/vma.c:214-245 | `vma_free` removes exactly the interval, except that of a whole area it does so exactly if its `prev` names an area before and those in between are empty, or if it is the first, its `prev` names an area behind and those behind that are empty |
| Vma.LinkStrict | mm/vma.c:312-320 | Linking a node in keeps right backward links right |
| Vma.LinkEarlier | mm/vma.c:312-320 | Linking a node in keeps that no link names a node behind exactly if no link before its place named it |
| Vma.SplitEarlier | mm/vma.c:232-244 | The same for the node of the second part of a split |
| Vma.FreedShrinks | mm/vma.c:214-245 | Whatever the backward links name, freeing adds nothing to what the list covers |
| VmaRuns.Serve | mm/vma.c:106-323 | The effect of each operation, on any sorted list and with any node that is not on it, is a step of the transition system; the list loses its end exactly if that step says so |
| VmaRuns.StepGood | mm/vma.c:106-323 | Every step keeps the list sorted, disjoint and without repetition, whatever the backward links name |
| VmaRuns.StepOrdered | mm/vma.c:106-323 | A step from a list on which no link names a node behind leads to such a list exactly if no link before its place named the node that is linked in, and never to a list without end |
| VmaRuns.StepEndless | mm/vma.c:214-227 | A step leads to a list without end exactly if it frees a whole area whose `prev` names a node behind |
| VmaRuns.StepHeld | mm/vma.c:106-323 | As long as no whole area is freed that stays on the list, `kmalloc` hands out no node that is on it |
| VmaRuns.AlwaysGood | mm/vma.c:106-323 | Over every run of the three operations in any order on the list of a new task, with freed nodes handed out again: while it has its end and no node on it was handed out, the list is sorted and disjoint |
| VmaRuns.OrderedExactly | mm/vma.c:106-323 | Along every run no link names a node behind exactly if every node that was linked in was named by no link before its place |
| VmaRuns.EndlessExactly | mm/vma.c:106-323 | Along every run the list loses its end exactly at a call that frees a whole area whose `prev` names a node behind, and only after a node was linked in that a link before its place named |
| VmaRuns.OverwrittenOnly | mm/vma.c:106-323 | Along every run a node on the list is handed out only after a call that freed a whole area and left it on the list |
| VmaRuns.AllHandedOut | mm/vma.c:106-323 | Along every run, every address that the list covers has been handed out by one of the calls |
| VmaRuns.HandedOutFree | mm/vma.c:106-323 | Along every run, what a call hands out was free before, is covered after it, and lies in the address space that the flags of the call ask for |
| VmaRuns.AlwaysUsable | mm/vma.c:106-323 | Where both conditions hold at each call, every state of the run is a sorted, disjoint list on which no link names a node behind |
| VmaRuns.EndlessRun | mm/vma.c:106-323 | An instance from the list of a new task, by two calls of `vma_add`, the split of the first area, the freeing of its first part, a third `vma_add` with the node given back and the freeing of the second area: success, and a list without end |
| Frames.SetMarks | mm/memory.c:74-80 | In the packed bytes exactly the bit of the frame is set |
| Frames.ClearMarks | mm/memory.c:82-88 | Exactly the bit of the frame is cleared |
| Frames.Allocator.SetMark | mm/memory.c:74-80 | The same for the array |
| Frames.Allocator.ClearMark | mm/memory.c:82-88 | The same for the array |
| Frames.ScanFinds | mm/memory.c:104-126 | What the scan finds is a run of n clear frames below the last frame |
| Frames.JumpLands | mm/memory.c:115-125 | The jump that wraps around lands where the first marked frame from the last place on says, wherever it starts |
| Frames.TurnKeeps | mm/memory.c:104-126 | A turn without success leaves the same clear runs to come |
| Frames.ScanExact | mm/memory.c:104-126 | From any turn on the scan finds something exactly if a clear run is to come |
| Frames.ScanComplete | mm/memory.c:104-126 | The scan finds a run exactly if a clear run below the last place starts at or behind the place where the scan begins, or at or behind the place where the jump that wraps around lands |
| Frames.NeverPassedOver | mm/memory.c:104-126 | So a clear run from place n - 1 on is never missed, and none at all when the frame before the last place is marked |
| Frames.ScanFindsFirst | mm/memory.c:104-126 | Of the clear runs that the scan does not pass over it returns the first, going round from where it begins |
| Frames.RunMissed | mm/memory.c:104-126 | An instance of three clear frames that the scan passes over |
| Frames.Allocator.FindRun | mm/memory.c:103-126 | The loops compute the scan |
| Frames.Allocator.GetPages | mm/memory.c:90-131 | A frame number found names n consecutive frames in range that were clear, and exactly their bits are set; the counters move by the change in clear bits; the run is the one that the scan from behind the last allocation finds, and there is one exactly if n is positive, at most the counter, below the number of frames, and some clear run satisfies the condition of `Frames.ScanComplete`. The address of a run at frame 0 is 0, as for failure; of those it is the first, going round from there |
| Frames.Allocator.PutPages | mm/memory.c:133-158 | Exactly the bits of the range are clear, the result and the counters move by the number that was set |
| Frames.Allocator.GetThenPut | mm/memory.c:90-158 | `put_pages` after a successful `get_pages` restores every byte and both counters |
| Numbers.Ksprintn | libkern/printf.c:83-96 | For bases 2 to 36 and every 64-bit number the buffer, read backwards, is the numeral without leading zeros in the wanted case; at most MAXNBUF characters are written |
| Numbers.DigitCharIs | libkern/printf.c:66-92 | Digits are printed as 0 to 9 and a to z, or A to Z if upper case is asked for |
| Numbers.CutOff | libkern/strtol.c:103-123 | The comparison with cutoff and cutlim is the test whether the number with the next digit exceeds the limit |
| Numbers.ReadHead | libkern/strtoul.c:67-82 | White space, sign, prefix and base as specified; reading stays within the string |
| Numbers.ReadDigits | libkern/strtoul.c:83-103 | All digits are read; the value is exact, or marked as overflow exactly if it exceeds the limit |
| Numbers.Strtoul | libkern/strtoul.c:52-110 | The exact value, its negative in the word size, or ULONG_MAX exactly beyond it; the end is just past the last digit, or the start if there is none |
| Numbers.Strtol | libkern/strtol.c:52-131 | The exact value clipped to LONG_MIN and LONG_MAX; the same end |
| Numbers.DigitOfExactly | libkern/strtoul.c:86-95 | A character counts as digit d exactly if it is the d-th of 0 to 9 and the letters, in either case |
| Numbers.TextReads | libkern/strtoul.c:52-110 | A text of white space, a sign or none, a prefix 0x or 0X where the base allows it, and digits of the base, followed by something else, is read by the code and by the standard as the number of its digits, negative exactly with -, up to the end of the digits |
| Numbers.NothingReads | libkern/strtoul.c:52-110 | A text without digits is read as 0 and nothing of it is used |
| Numbers.BareReads | libkern/strtoul.c:75-82 | Of a prefix without a hexadecimal digit the code uses nothing, where the standard reads the 0 |
| Numbers.EveryText | libkern/strtoul.c:52-110 | Every text, for every base, has one of these three forms |
| Numbers.StrtoulOfText | libkern/strtoul.c:52-110 | `strtoul` of a text with digits: their value, its negative in the word size after -, or 0xffffffff exactly beyond that; the end behind the digits |
| Numbers.StrtolOfText | libkern/strtol.c:52-131 | `strtol` of a text with digits: their value, negated after -, clipped to 32 bits; the end behind the digits |
| Numbers.StandardReading | libkern/strtoul.c:67-110 | The subject sequence found, its sign, number and end, is that of section 7.20.1.4 of ISO C99, where a prefix 0x counts only before a hexadecimal digit, exactly unless a prefix stands before something else |
| Numbers.BareHex | libkern/strtoul.c:76-82 | An instance: of "0x" the standard reads the 0, the code nothing |
| Numbers.StandardStrtoul | libkern/strtoul.c:52-110 | Value and end are those of section 7.20.1.4 of ISO C99 for words of any width from 32 bits on exactly if, besides, the width is 32, the number is at most ULONG_MAX, or it is the one negative number whose clipped value is right by chance |
| Numbers.StandardStrtol | libkern/strtol.c:52-131 | The same for longs: exactly if, besides, the width is 32 or the number lies between LONG_MIN and LONG_MAX |
| Numbers.ClippedWord | libkern/strtoul.c:83-103 | An instance: 4294967296 fits 64 bits and is above the limit |
| Numbers.NumeralReads | libkern/strtoul.c:52-110 | A printed numeral reads as digits only, to its end, with the same value |
| Numbers.PrintThenRead | libkern/printf.c:83-96 | `strtoul` inverts `ksprintn` for bases 2 to 36 and every value up to ULONG_MAX |
| Numbers.FieldLength | libkern/printf.c:397-437 | A field has the larger of its width and its natural length |
| Numbers.FieldLayout | libkern/printf.c:411-437 | Character by character: prefix, digits, padding if adjusted to the left; else blanks, prefix, digits, or prefix, zeros, digits |
| Numbers.NumberField | libkern/printf.c:397-437 | The output grows by sign, prefix and numeral of the absolute value, padded in front, after the prefix or behind to exactly max(width, natural length) characters |
| Numbers.StandardPadding | libkern/printf.c:397-437 | For every sign, base, width, precision and combination of the flags -, 0 and #, the text is that of section 7.19.6.1 of ISO C99 exactly if the prefix 0X is not called for, zeros are not filled in behind (save for 0), and the precision makes no difference or asks for just the zeros that the zero flag fills in |
| Numbers.ZerosBehind | libkern/printf.c:431-434 | An instance: 42, left-adjusted in five places with the zero flag, is printed as 42000 |
| Numbers.PrecisionIgnored | libkern/printf.c:411-427 | An instance: 42 with three digits in eight places with the zero flag is printed as 00000042 |
| Numbers.PrefixLower | libkern/printf.c:418-425 | An instance: 255 in the alternative form with upper-case digits is printed as 0xFF |

## Left out

- `reschedule`, context switches, stacks and the FPU: assembly and hardware state.
- IrqSpinlock.TwoDeep: is about one task; with interrupts off and one processor no other task runs in between.
- The sections that `spinlock_irqsave_lock` protects are single steps of the scheduler.
- Liveness of semaphores under a fair scheduler: beyond the order of waking the code promises nothing, and a post with a value above 0 wakes nobody.
- Semaphores.Semaphore.WaitOnce: models one turn of the retry loop of `sem_wait`; the loop is the task's repeated step in `Blocking` and `Mailbox`.
- PageMap.AddressSpace.Map: does not model the locks, the flushing of the TLB or pages of 2 MB and 4 MB; physical addresses do not wrap around; says nothing about ranges inside a window, where a page is a table, or about the empty range at page 0, whose last page does not exist.
- PageMap.AddressSpace.Unmap: asks that the tables of the range exist, because the code faults otherwise; likewise only for plain pages.
- Fork.Machine.PageMapCopy: tables are named by their frames instead of by window addresses, which `Fork.WindowsDuringCopy` justifies; the contents of tables and of pages are two maps.
- Fork.ChildTranslations: says nothing about the scratch page, whose entry changes during the copy; asks that every user page can be read, because in 64-bit mode the code reads pages of the upper half at an address that is not canonical.
- Buddy.Heap.Kmalloc: says nothing about requests above 2^30 bytes with their prefix, for which the shifts of int are not defined.
- Buddy.Heap.Palloc: does not model that `palloc` may call back into `kmalloc` for the node of an area.
- Vma.VmaList.Alloc: `start + size` is unbounded, so that requests whose sum exceeds the word are not modelled.
- VmaRuns.Serve: says nothing about a node that is handed out while it is on the list; `VmaRuns.OverwrittenOnly` shows that this follows only a call that has freed a node and left it there (`Vma.VmaList.SplitThenFreeBoth`).
- VmaRuns.AlwaysGood: a run ends with a list without end, on which the operations need not return.
- Numbers.StandardPadding: the flags + and blank, which the code does not act on, are not part of the format.
- Vma.VmaList.Free: the choice between the kernel's and the task's list is left to the caller; an interval in neither is refused.
- Frames.Allocator.GetPages: the lock around the bitmap is not modelled.
- `palloc` and `pfree` as compositions of the other operations, `buddy_dump`, `vma_dump`: only easy members.
- `memory_init`, `vma_init`, `page_init`, `copy_vma_list` and `drop_vma_list`.
- `page_fault_handler` and `page_set_flags`.
- `kvprintf`'s parsing of the format and its conversions that are not numbers.
- `udivdi3` and `umoddi3`: calls of `__qdivrem`.
- The file system, ELF loading, the C library's glue, interrupt, timer, PCI, UART and VGA code.
