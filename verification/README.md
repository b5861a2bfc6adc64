# A verified model of the 6502 cooperative kernel, its queues, messages and ROM packer

The repository is a small cooperative multitasking kernel for the 6502, with a ring queue and its
self-test, a publish/subscribe manager, JSON messages over MQTT and over a modem's byte stream,
bounded formatting, and a packer for ROM images. This project models those parts in Dafny and
proves what they are for. `dafny verify dfyconfig.toml` checks everything.

Code that works in place is a class or a method over arrays, proved against functions on values;
the lemmas about those functions are the results. Numbers have the program's widths: on cc65 an
`int` has 16 bits and a `long` 32, and wrap-around is written out. Python integers are unbounded.

| files | what they hold |
|---|---|
| `Words`, `Wrappers` | word ranges, wrap-around, sums; `Option` |
| `SchedulerState`, `SchedulerRuns`, `SchedulerStacks`, `Kernel` | the kernel's state and calls; runs: fairness, sleeping; private stacks; the kernel object itself |
| `RingQueue`, `RingRuns` | the instrumented ring and several rings sharing the totals |
| `QueueTest`, `QueueTestRounds`, `QueueTestTotals`, `QueueTestLimit`, `QueueTestCrossing` | the self-test protocol: safety, progress, the shared totals beside tasks with other queues, what happens at 2^32 pushes, and what exactly stops the program |
| `QueueTestTasks`, `KernelRounds` | the two task bodies on the real ring; the test on the kernel itself, from boot |
| `RomImage`, `RomFormat`, `RomRoundTrip`, `RomReading`, `Rom` | the sparse image and its chunks, the file format, the round trip, what the reader accepts and refuses, the `ROM` object |
| `Decimal`, `StringHelpers`, `FormatMeaning` | `itoa_new`, `parse_number`, `append_fmt`; what a format prints |
| `Base64`, `Search`, `Identifiers` | base64, substring search in quoted text, GUIDs |
| `Message`, `MessageRoundTrip`, `MessageParsing`, `MessageBuilder` | the JSON text and its parser, what survives both, what the parser answers for any text, the building loops |
| `Tracker` | the table of sent identifiers |
| `PubSubState`, `PubSubRuns`, `PubSubCalls`, `PubSub` | topics and subscribers as values, interleaved processing, the callbacks of a pass over all topics, the manager object |
| `UartState`, `UartRuns`, `UartHeaders`, `UartMessages`, `Uart` | the modem reader: one byte, whole streams, its other headers and objects that are dropped, end to end, the reader object |

## What the proofs found

- **Scheduler.** `wake_tick == 0` means ready, so a deadline that is a multiple of 2^16 does not
  wait, and neither does a delay above 0x8001 (`SleepHoldsExactly`). It is never cleared, so a
  task that has slept once and then only yields is runnable half of the time
  (`AwakeOnlyHalfTheTime`). The third search loop of `find_next_task` can never return a task.
  Stacks are private in all runs but those with one of two misuses: a task that frees its own slot
  and fills it again before yielding starts the new task with the old stack pointer and bytes
  (`RefilledOwnSlotStartsStale`), and a task that calls `scheduler_run` resumes with the stack it
  had when it was last suspended (`RunFromTaskResumesStale`).
- **Ring queue.** The two totals shared by all queues are 32 bits wide, never reset, and compared
  at every push and pop; a wrong comparison stops the program. `HaltsExactly` says for every run
  when that is. Below 2^32 accepted pushes it never is (`ChecksStaySilent`). The push that brings
  the total to 2^32 wraps it, and the next counted operation stops the program, unless it pops the
  one word in flight and so wraps the other total as well (`AfterTheWrap`). The other four alarm
  sites are `assert false` in `Push` and `Pop`.
- **Self-test.** Safe under every schedule. The handshake of a run is lost for good exactly when
  no consumer is in its wait loop at the reset, which is what happens when the consumers' slots
  come before the producer's. With the producer first, every run completes, on the kernel
  (`SelfTestCompletes`) and from boot (`SelfTestFromBoot`) too, as long as fewer than 2^32 words
  have been pushed in all. Past that, for every schedule and every use of other queues, the program
  is stopped exactly when a push brings the count to a multiple of 2^32 and the next counted
  operation is not the pop of the only word between the counts (`StopsExactly`,
  `RunEndsExactly`). With other queues idle, at least two items a run and fewer consumers than the
  queue holds words, that is every time: the round-robin test stops the machine sooner or later
  (`RunCompletesExactly`, `SelfTestHalts`). The program has at most nine consumers and room for
  2047 words; with one consumer and room for one word, a run can pass the limit
  (`RunPassesLimit`).
- **Messages.** A text is recovered exactly when the guards let its whole encoding through and
  the text, between its quotes, does not spell `"Base64Message":"`. A text that spells
  `"Base64MessageHash":"` supplies the hash that is read. A negative id is printed
  without digits and read back as 0. With the callers' 1024-byte buffer 318 bytes always fit.
- **Modem reader.** Headers are looked for from the tenth byte of the buffer on. A three-digit
  `+IPD,nnn:` has nine, so right after a complete object, with nothing in between, the first byte
  of the payload is swallowed with the header and the message is lost (`MessageArrivesExactly`).
  Any quiet byte before the header saves it; with one before each, any number of messages arrive in
  order, as many as the queue has room for (`MessagesArrive`).
  A +DATA header with a length is looked for from the sixth byte on and has no such gap
  (`DataFrameTaken`). "+DATA:" without one loses the length that was announced for it, and with it
  the buffer's text, so its payload is not counted (`BareAnywhere`); a whole object behind it is
  still taken (`FetchedObjectTaken`).
- **Publish/subscribe.** A subscription is refused forever once all 32 slots have been used, even
  after everyone has left (`SlotsRunOut`). PUBSUB_GUIDE.md promises queues of 64
  messages; the code's hold 63.
- **ROM images.** An image can be written exactly when the allocated run that reaches address
  0x20000 is empty or a whole number of 1024-byte chunks; the scan otherwise runs off its list.
  The line pattern of the reader does not ask for blanks between the three numbers of a block: a
  line of three or more characters without any is taken apart too (`GroupsAreGreedy`).

## Model

| member | source | states |
|---|---|---|
| `SchedulerState.NextSelects` | src/scheduler.c:61-95 | the selected task is the nearest eligible non-idle one in cyclic order, the idle task only when there is no other, and nothing exactly when nothing is eligible |
| `SchedulerState.YieldMoves` | src/scheduler.c:162-185 | a yield passes the turn to the selected task, or back to its caller when there is none, moves the tick by one modulo 2^16 and changes no task's selection fields |
| `Kernel.Scheduler.FindNextTask` | src/scheduler.c:61-95 | the three search loops on the task array compute that selection; the return of the last loop is dead code |
| `Kernel.Scheduler.SchedulerAdd` | src/scheduler.c:97-113 | the lowest free slot gets this function and argument, in use, not one-shot, not started, with SP 0xFF and wake tick 0, and no other slot changes; -1 and no change when the table is full |
| `Kernel.Scheduler.SchedulerAddOnce` | src/scheduler.c:115-120 | the same with the one-shot mark |
| `Kernel.Scheduler.SchedulerRemove` | src/scheduler.c:122-130 | an in-range slot loses its in-use and started marks, function and argument and nothing else, any other index is refused; no other slot changes |
| `Kernel.Scheduler.SchedulerSetIdleTask` | src/scheduler.c:188-192 | an in-range slot becomes the idle task, any other number leaves none |
| `Kernel.Scheduler.CopyStacks` | src/scheduler.c:202-235 | the byte loops save exactly the used part of the page for the old task, then bring in exactly that of the new one, even when both are the same task |
| `Kernel.Scheduler.CtxSwitch` | src/ctxswitch.s:74-126 | stack pointer, flags and used stack bytes change hands; the next task is marked started |
| `Kernel.Scheduler.SchedulerYield` | src/scheduler.c:162-185 | the method performs one yield, counters included, and returns to its caller when nothing is runnable |
| `Kernel.Scheduler.SchedulerSleep` | src/scheduler.c:142-148 | sets the caller's 16-bit deadline (a delay of 0 counts as 1) and yields; outside any task it does nothing |
| `Kernel.Scheduler.SchedulerTaskReturn` | src/scheduler.c:132-140 | frees the running task's slot and yields |
| `Kernel.Scheduler.SchedulerRun` | src/scheduler.c:237-245 | starts the first selected task from the main context |
| `SchedulerRuns.BoundedFairness` | src/scheduler.c:61-76 | an in-use non-idle task with wake tick 0 runs within as many yields as its cyclic distance plus one, at most 10, over every run in which the other tasks are added, removed, put to sleep or end |
| `SchedulerRuns.TurnsAreCyclic` | src/scheduler.c:61-76 | of two tasks ready throughout a run the cyclically nearer one runs first, so ready tasks take turns in slot order |
| `SchedulerRuns.DueComparesTimes` | src/scheduler.c:70-74 | within half the tick range the 16-bit difference test is comparison of unbounded times, save for the deadline value 0 |
| `SchedulerRuns.SleepHoldsExactly` | src/scheduler.c:142-148 | a sleeper is not selectable at its own call if and only if the delay is 2 to 0x8001 and the deadline is no multiple of 2^16 |
| `SchedulerRuns.AwakeOnlyHalfTheTime` | src/scheduler.c:70-74 | since the deadline is never cleared, a woken task that only yields is selectable for exactly 0x8000 of every 0x10000 ticks |
| `SchedulerRuns.SleepFallsThrough` | src/scheduler.c:162-171 | a sleep returns straight to its caller if and only if nothing else is due, or the delay is one tick, the caller is not the idle task and only the idle task is due besides |
| `SchedulerRuns.SleepResumesOnTime` | src/scheduler.c:142-148 | with another task runnable, a sleeper runs no earlier than its delay and within 10 yields of its deadline, across tick wrap-around |
| `SchedulerRuns.SleepSetsDeadline` | src/scheduler.c:142-148 | a sleep sets the caller's deadline to tick plus delay modulo 2^16, a delay of 0 counting as 1, changes no other deadline and takes one tick; outside any task it changes nothing |
| `SchedulerRuns.AddedTaskStarts` | src/scheduler.c:97-113 | a task is added to the lowest free slot, which alone changes; over every run in which it is neither removed nor returns, it is running when its slot is first marked started, with the function and argument it was added with |
| `SchedulerRuns.ReturnFrees` | src/scheduler.c:132-140 | a task that returns gives up its slot and nothing else changes hands, and the processor stays with it if and only if no other task can run |
| `SchedulerRuns.EndedNeverRuns` | src/scheduler.c:132-140 | so when another task can run, it never runs again over any run that does not fill its slot |
| `SchedulerRuns.RemovedNeverRuns` | src/scheduler.c:122-130 | nor does a task that another removes |
| `SchedulerRuns.IdleRunsLast` | src/scheduler.c:78-82 | once a task has been named as idle, the next yield goes to it if and only if it can run and no other can |
| `SchedulerRuns.CountersCount` | src/scheduler.c:162-185 | over every run the total counts the yields and the active counter those that hand over to a task other than the idle one, modulo 2^32, and the tick counts the yields modulo 2^16 |
| `SchedulerStacks.StacksArePrivate` | src/scheduler.c:202-235 | over every run of adds, removals, exits, slot reuse and switches the shared page behaves as if each task had a stack of its own, and a fresh task starts with none of a former owner's bytes |
| `SchedulerStacks.BootMatches` | src/scheduler.c:40-59 | the state at start-up satisfies that correspondence |
| `SchedulerStacks.ResumeRestoresStack` | src/ctxswitch.s:74-126 | a task that yields or sleeps has, when it next runs, the same stack pointer and flags and exactly the bytes it had above the pointer, however the others use the kernel |
| `SchedulerStacks.RefilledOwnSlotStartsStale` | src/scheduler.c:97-113 | the first excluded case: a slot refilled by the task that still runs in it, left by a yield or a sleep at any later time, is still to be started, and over every run it starts with the stack pointer, flags and bytes of the task that left it |
| `SchedulerStacks.OwnSlotRefilled` | src/scheduler.c:97-113 | adding a task puts an unstarted one into the running task's slot exactly when that slot is the lowest free one |
| `SchedulerStacks.RunFromTaskResumesStale` | src/scheduler.c:237-245 | the second: a task that calls `scheduler_run` resumes, over every run, with the stack pointer, flags and bytes of its previous suspension |
| `RingQueue.PushLayout` | src/ringq.c:97-112 | storing at the head appends to the unrolled contents, refuses exactly a queue of 2047, keeps guards on exactly the occupied slots and moves the count by one |
| `RingQueue.PopLayout` | src/ringq.c:143-157 | clearing at the tail removes the oldest word, which is guarded, keeps the guard rule and moves the count by one |
| `RingQueue.RingQ.Init` | src/ringq.c:60-72 | empties the queue and clears every guard and the checksum |
| `RingQueue.RingQ.Push` | src/ringq.c:91-129 | bounded FIFO push with guards and checksum kept exact; its count alarm is unreachable; when the totals compare wrong the word is stored and the program stops there, otherwise the push is counted |
| `RingQueue.RingQ.Pop` | src/ringq.c:131-175 | FIFO pop with guards and checksum kept exact; the guard, count and checksum alarms are unreachable; when the totals compare wrong the program stops there |
| `RingQueue.RingQ.Count` | src/ringq.c:177-183 | the masked difference is the number of queued words |
| `RingQueue.RingQ.IsFull` | src/ringq.c:75-79 | full exactly at 2047 words |
| `RingQueue.RingQ.SpaceFree` | src/ringq.c:185-188 | 2047 less the queued words |
| `RingRuns.ChecksStaySilent` | src/ringq.c:91-175 | over every run on any number of queues, re-initialisation included, the program is not stopped while fewer than 2^32 pushes have been accepted |
| `RingRuns.HaltsExactly` | src/ringq.c:91-175 | over every run on any number of queues the program is stopped if and only if an operation of the run meets a wrong comparison of the true counts modulo 2^32; until then the queues are the plain ones |
| `RingRuns.AlarmBetweenWraps` | src/ringq.c:119-125 | for the next operation of any queues with less than 2^32 words between the counts: the comparison is wrong exactly when the pushes have wrapped more often than the pops, this one included |
| `RingRuns.AfterTheWrap` | src/ringq.c:119-125 | once a push has brought the count to a multiple of 2^32, the next counted operation stops the program unless it pops the one word in flight |
| `RingRuns.ChecksFailAfterWrap` | src/ringq.c:119-125 | one queue used correctly is stopped on the push after the 2^32-th, which is still queued |
| `QueueTest.NumbersSum` | src/main.c:1358-1372 | the sum of 1..n is n(n+1)/2 and stays below 2^32 for every 16-bit n, so the 32-bit sums never wrap |
| `QueueTestTotals.SafeForEveryInterleaving` | src/main.c:1334-1401 | at every yield point of every schedule, with any use of other queues between the slices, the words popped followed by the queue are 1..sent, counts and sums agree, and neither fail_halt of the producer is reached |
| `QueueTestTotals.RunCompletes` | src/main.c:1350-1387 | with round-robin slices, the producer first, and fewer than 2^32 pushes counted with this run's items and the pushes to other queues, a run ends within its item count plus three rounds, everything received and every consumer back in its wait loop |
| `QueueTestTotals.EveryRunCompletes` | src/main.c:1475-1500 | any number of further runs complete under the same bound, for any number of consumers, item counts and capacity |
| `QueueTestTotals.HandshakeSticksExactly` | src/main.c:1350-1354 | after a reset no schedule ever sets the ready flag again if and only if every consumer is polling |
| `QueueTestTotals.ConsumersFirstSticks` | src/main.c:2197-2199 | with the consumers' slots first the very first handshake is lost, under every later schedule |
| `QueueTestLimit.RunHalts` | src/ringq.c:119-125 | with round-robin slices, the producer first, other queues idle, fewer consumers than the queue holds words and at least two items: the run whose items bring the count of pushes to 2^32 does not end, and within the rounds it would have taken the totals alarm stops the program |
| `QueueTestLimit.RunCompletesExactly` | src/main.c:1350-1387 | so under these conditions a run completes if and only if its items keep the count below 2^32 |
| `QueueTestLimit.SelfTestHalts` | src/main.c:1334-1401 | under these conditions, with at least two items in every run, a schedule that is long enough for the runs that reach 2^32 pushes is stopped by the alarm |
| `QueueTestLimit.RunPassesLimit` | src/ringq.c:119-125 | where there are as many consumers as the queue holds words this fails: one consumer, room for one word, and a run of two items that passes the limit |
| `QueueTestCrossing.StopsExactly` | src/ringq.c:119-170 | for any order of the slices and any pushes, pops and drops on other queues, as long as those hold or have dropped fewer than 2^32 - 2^16 words: the program is stopped if and only if some push brings the count to a multiple of 2^32 and the next counted operation is not the pop of the only word between the counts; until then the test runs as if there were no totals |
| `QueueTestCrossing.StopsExactlyFromBoot` | src/main.c:2181-2247 | so for every schedule from the start of the program |
| `QueueTestCrossing.RunEndsExactly` | src/main.c:1350-1387 | beside any such use of other queues, for any number of consumers, capacity and item count: a round-robin run is completed if and only if no such operation comes before the point, within item count plus three rounds, at which it would be complete alone |
| `QueueTestRounds.BootIsAtStart` | src/main.c:2197-2199 | the start-up state, producer's slot first, is such a start |
| `KernelRounds.DealsAreCyclic` | src/scheduler.c:61-95 | in every kernel run that keeps them ready, the self-test's tasks get their slices in cyclic slot order, whatever other tasks do |
| `KernelRounds.DealsKeepComing` | src/scheduler.c:61-95 | and at least one slice in every ten yields |
| `KernelRounds.SelfTestCompletes` | src/main.c:1334-1401 | scheduler and protocol joined: with the producer's slot next, a kernel run with ten yields for each slice of the rounds that m runs can take completes each of the next m self-test runs, whatever other tasks do with other queues, while the count of pushes stays below 2^32 |
| `KernelRounds.SelfTestFromBoot` | src/main.c:2181-2247 | from an empty task table on: the adds of main, the producer in front of the consumers, then scheduler_run, which may itself give the producer its first slice: each of the first m runs completes, under the same conditions |
| `QueueTestTasks.SelfTest.ProducerTurn` | src/main.c:1334-1401 | the producer's body between two yields, on the real ring and totals, is the protocol's producer step, the stop by the totals alarm included |
| `QueueTestTasks.SelfTest.ConsumerTurn` | src/main.c:1471-1501 | the consumer's body between two yields is the protocol's consumer step, the stop by the totals alarm included |
| `QueueTest.WaiterActs` | src/main.c:1475-1492 | a consumer in its wait loop leaves a finished run alone; otherwise it sets the ready flag and takes the oldest word, if there is one |
| `QueueTestTasks.SelfTest.FinishRun` | src/main.c:1384-1401 | with words left the producer goes on waiting; with none the run is over, and fail_halt is entered exactly when items were asked for and more words have been received, or the low 16 bits of their sum exceed those of the sum sent |
| `QueueTestTasks.SelfTest.EnqueueItems` | src/main.c:1360-1374 | the nested enqueue loops, entered afresh or where the producer was blocked, up to the yield or the alarm |
| `RomImage.WalkCovers` | tools/rp6502.py:497-507 | the chunks of a completed walk are nonempty, at most 1024 bytes, inside one bank, consecutive, and leave no allocated cell out |
| `RomImage.CoverIsExact` | tools/rp6502.py:497-507 | chunks ascend without overlap; a cell is allocated exactly when a chunk holds it, and with its byte |
| `RomImage.WalkableExactly` | tools/rp6502.py:497-507 | a walk completes if and only if the length of the run that reaches 0x20000 is a multiple of 1024, 0 included |
| `RomFormat.HexReadsBack` | tools/rp6502.py:456-464 | a printed hexadecimal number reads back as itself |
| `RomRoundTrip.HeaderReadsBack` | tools/rp6502.py:450-470 | a block's line with any address, length and checksum number is recognised and its three numbers read back |
| `RomRoundTrip.RoundTrip` | tools/rp6502.py:700-714 | for every image that can be walked, the written file is accepted and gives back the same help lines, allocation map and bytes, whatever the checksum function |
| `RomRoundTrip.ReadKeepsWellFormed` | tools/rp6502.py:434-475 | whatever file is read, the image still satisfies what the round trip asks for |
| `RomRoundTrip.StoreKeepsWellFormed` | tools/rp6502.py:366-371 | so it does after adding binary data |
| `RomFormat.AcceptedLeaves` | tools/rp6502.py:434-475 | what a file leaves behind, error or not, is for an accepted file the image it defines |
| `RomReading.FirstLineDecides` | tools/rp6502.py:436-442 | a file is read on if and only if it starts with the two marks, RP in either case, 6502 and a line end; otherwise it is refused and the image unchanged |
| `RomReading.BlockIsChecked` | tools/rp6502.py:465-474 | a block in a free range whose bytes are all there is loaded, and reading goes on behind it, if and only if its line names the checksum of these bytes; with any other number the file is refused and no byte and no help line has changed |
| `RomReading.TruncatedBlock` | tools/rp6502.py:468-471 | a file that ends inside a block is refused, whatever its line says, and no byte is stored |
| `RomReading.MisplacedBlock` | tools/rp6502.py:477-491 | a range outside the ROM or across the banks is refused with the index error, one that holds data with the memory error, and no byte is stored |
| `RomReading.NotAscii` | tools/rp6502.py:443-443 | a line with a byte from 128 on is refused |
| `RomReading.BlankLineEnds` | tools/rp6502.py:443-445 | a line of white space, or the end of the file, ends the reading with what has been read |
| `RomReading.HelpExactly` | tools/rp6502.py:446-452 | a line is help if and only if, behind blanks, it starts with a number sign and a blank or is a number sign alone; its text is what follows |
| `RomReading.HelpIsRead` | tools/rp6502.py:446-449 | a help line's text, without the white space at its end, is added and reading goes on; longer than 80 it is refused and left out, the 25th is refused and stays in the list |
| `RomReading.GroupsAreGreedy` | tools/rp6502.py:453-454 | the three groups of the pattern exist if and only if the line has three words, blanks between them or not, and are then those with the longest first and next the longest second word |
| `RomReading.OtherLinesAreRefused` | tools/rp6502.py:475-475 | a line that is neither help nor three such words is refused and the image unchanged |
| `RomReading.AnySpelling` | tools/rp6502.py:456-474 | three words do what the written block line with their numbers does; of several that are no numbers the first decides the error |
| `RomReading.NumbersRead` | tools/rp6502.py:456-463 | every number reads back from hexadecimal digits behind a dollar sign or 0x and from its decimal digits; a decimal number with a zero in front and an empty one are value errors |
| `RomReading.OtherNumbers` | tools/rp6502.py:456-463 | a character that is no hexadecimal digit is a runtime error, with a prefix and without, hexadecimal letters without a prefix a value error |
| `RomReading.HexShape` | tools/rp6502.py:706-711 | numbers are written in upper-case digits, filled up with zeros to the width and no further |
| `RomReading.FileIsWritten` | tools/rp6502.py:700-714 | the first line, each help line and each block of the written file, spelled out |
| `Rom.ROM.AddHelpLine` | tools/rp6502.py:358-364 | refuses a line over 80 columns and leaves the list alone; adds any other, and refuses when there are then more than 24 |
| `Rom.ROM.AllocateRom` | tools/rp6502.py:477-491 | marks exactly the range, or fails with the index error when it is outside the ROM or crosses the banks, and with the memory error when a cell is taken; then the cells before the first clash stay marked |
| `Rom.ROM.AddBinaryData` | tools/rp6502.py:366-371 | allocates, then stores every byte at its address; after an error the bytes are unchanged and exactly the cells before the first clash are marked |
| `Rom.ROM.NextRomData` | tools/rp6502.py:497-507 | the two scanning loops give the next chunk, none, or the index error at the end of the list |
| `Rom.ROM.Create` | tools/rp6502.py:700-714 | the writer loop produces exactly the file of help lines and walked chunks, or the walk's error |
| `Rom.ROM.AddRp6502File` | tools/rp6502.py:434-475 | the line loop reads what the format defines, with its errors, and after an error leaves exactly what the lines before it and the failing one have put in place |
| `Decimal.ItoaMeans` | src/string_helpers.c:6-44 | with room the text is the number, 0 included; without, it is the number modulo 10^(bufsz-1) on bufsz-1 digits |
| `Decimal.ItoaNew` | src/string_helpers.c:6-44 | the digit and reversing loops write that text and its NUL and nothing beyond |
| `Decimal.ParseNumber` | src/main.c:280-289 | the 16-bit reading of the leading digits |
| `Decimal.ParseInvertsItoa` | src/main.c:280-289 | reading back a written number gives the number when it fits an int, and its two's complement reading otherwise |
| `StringHelpers.AppendFmt` | src/string_helpers.c:47-133 | the bytes appended are the rendering, whose meaning `FormatMeaning.RenderMeans` gives, cut one short of the buffer; success exactly when it fits; on failure the position is at the last byte; NUL there except when the cut falls on a percent sign; nothing is written past it |
| `StringHelpers.PieceFits` | src/string_helpers.c:60-130 | a conversion that fits keeps what is written equal to a prefix of the rendering |
| `StringHelpers.PieceCut` | src/string_helpers.c:60-130 | the first conversion that does not fit leaves exactly the cut rendering |
| `FormatMeaning.RenderMeans` | src/string_helpers.c:60-128 | a format renders to what its parts print, in order: plain characters and strings as they are, `(null)` for a null pointer, one percent sign for two or for one before any other character, and for %u and %d the numeral of the argument: decimal digits of that value without leading zeros |
| `FormatMeaning.HasParts` | src/string_helpers.c:60-128 | every format with arguments that match it is made of such parts |
| `FormatMeaning.OneNumeral` | src/string_helpers.c:92-96 | every number has exactly one such numeral |
| `FormatMeaning.StopsAtPercentExactly` | src/string_helpers.c:66-69 | the NUL is missing after a cut if and only if the first part that does not fit is a percent sign that stands for itself |
| `Base64.DecodeInvertsEncode` | src/main.c:690-711 | a decoder written from section 4 of RFC 4648 gives every byte sequence back |
| `Base64.Regroups` | src/main.c:700-706 | the shifts and masks cut the same 24-bit group that the decoder joins |
| `Base64.EncodeShape` | src/main.c:690-711 | 4*ceil(n/3) characters, letters of the alphabet up to the missing bytes of the last group, which are padding |
| `Base64.Base64Encode` | src/main.c:690-711 | the loop writes that encoding and its NUL into the buffer and nothing beyond |
| `Search.MyStrstr` | src/main.c:204-229 | the nested loops find the first occurrence, or none |
| `Search.AfterIsPair` | src/main.c:204-229 | in a text seen as pieces between quotes, searching for `"key":"` stops behind the first key piece followed by a colon piece |
| `Search.SpellsPair` | src/main.c:204-229 | a quoted value contains a key's search string exactly when its pieces hold such a pair |
| `Search.FindsField` | src/main.c:646-682 | the search passes every field of another key whose value does not spell the key and stops at the first field with it |
| `Search.StopsInField` | src/main.c:646-682 | a field that spells the key stops the search inside its value, at a place that depends on that value alone |
| `Identifiers.ParseInvertsPrint` | src/main.c:818-830 | reading eight printed digits gives the identifier back, for all 32-bit identifiers |
| `Identifiers.FourNibbles` | src/main.c:818-830 | the nibbles by shift and mask are the hexadecimal digits |
| `Identifiers.GeneratedDistinct` | src/main.c:139-145 | any 2^32 generated identifiers in a row are distinct and the next repeats the first |
| `Identifiers.Extract` | src/main.c:2051-2098 | the consumer's scanning loops compute the identifier of a payload |
| `MessageParsing.ExtractsNothing` | src/main.c:2051-2059 | a payload without a brace, or without the key behind its first one, holds no identifier |
| `MessageParsing.ExtractsToNul` | src/main.c:2057-2059 | the object that is searched ends at the first NUL behind its brace |
| `MessageParsing.ExtractsFirst` | src/main.c:2059-2083 | behind the first key, a colon and a quote, with any number of spaces around the colon, the first eight characters of the value are the identifier; a shorter value is none |
| `MessageParsing.HexDigits` | src/main.c:819-824 | digits are printed in upper case and read in either |
| `MessageParsing.OtherDigits` | src/main.c:2084-2093 | any other character counts as a zero digit |
| `Message.ParseJsonResponse` | src/main.c:629-687 | the searches and copy loops compute the parsed message; without an id key anywhere in the text the answer is false and the id -1 |
| `MessageParsing.NoIdNoMessage` | src/main.c:635-647 | for every text without an id key: no message, and the id reads as -1 |
| `MessageParsing.IdIsRead` | src/main.c:641-647 | otherwise the id is the number behind the first key, any blanks and tabs between, as a 16-bit int, 0 when there is none, and the text is a message exactly when it is not negative |
| `MessageParsing.StringIsRead` | src/main.c:649-659 | a string is what stands behind the first place of its key, up to a quote or the end, at most the given length; empty without the key |
| `MessageParsing.ThreeStrings` | src/main.c:649-683 | the three strings of a response, their keys and their lengths of 15, 511 and 63 |
| `Message.JsonIsPieces` | src/main.c:796-878 | the printed text, seen as pieces between quotes |
| `MessageParsing.NewMessageText` | src/main.c:796-878 | the printed text, from one brace to the other |
| `MessageParsing.OldMessageText` | src/main.c:946-982 | that of the format without the text |
| `MessageParsing.ShownUpTo` | src/main.c:843-859 | the text and its encoding are printed whole up to the positions 300 and 200 bytes before the end of the buffer, and cut there |
| `Message.FieldReads` | src/main.c:646-682 | a field is read back, cut at the parser's limit, when no earlier value spells its key |
| `Message.FieldMisread` | src/main.c:646-682 | otherwise the parser reads out of that value what it would read there if the value, its quotes and comma were all; it is no longer than the value, or a comma |
| `Message.IdReads` | src/main.c:638-644 | the id comes back exactly when it is not negative |
| `MessageRoundTrip.NewRoundTrip` | src/main.c:733-896 | for every encodable text: id and category survive; the hash does unless the text spells its key, when it is what the text supplies; and the text decodes from what was read if and only if the guards pass its whole encoding and it does not spell the key of the encoding |
| `MessageRoundTrip.QuoteFreeRoundTrip` | src/main.c:733-896 | for quote-free texts only the guards decide |
| `MessageRoundTrip.OldRoundTrip` | src/main.c:899-982 | the format without the text: everything survives, for every text, if and only if its one guard passes the encoding |
| `MessageRoundTrip.CallersBound` | src/main.c:1888-1888 | with 1024 bytes the bound on text length, sharp for five-digit ids; the old format takes every encodable text |
| `MessageBuilder.GuardsFitBuffer` | src/main.c:843-859 | the two guards keep the whole text and its NUL inside the caller's buffer, however long the message text is |
| `MessageBuilder.IdString` | src/main.c:774-794 | the digit loops give the id's text |
| `MessageBuilder.Builder.GenerateGuid` | src/main.c:139-145 | the next identifier of the 32-bit counter |
| `MessageBuilder.Builder.BuildTestMsg` | src/main.c:733-896 | the printing loops write exactly that text and its NUL, nothing beyond, advance id and GUID counter, and hand out both encodings where the caller gives buffers |
| `MessageBuilder.Builder.BuildTestMsgOld` | src/main.c:899-982 | the same for the old format |
| `Tracker.MessageTracker.TrackMessage` | src/main.c:1813-1825 | a new unreceived entry, or -1 when ten are tracked |
| `Tracker.MessageTracker.MarkReceived` | src/main.c:1828-1841 | marks the first entry with the identifier; true exactly when there is one |
| `Tracker.MessageTracker.CountReceivedMessages` | src/main.c:1844-1854 | the loop counts the marked entries |
| `Tracker.TableTells` | src/main.c:1813-1841 | after any interleaving the marked identifiers are exactly those received after they had been tracked |
| `Tracker.CountsHeard` | src/main.c:1844-1854 | the count is the number of distinct such identifiers, duplicates and strangers included in the run |
| `Tracker.AllReceivedExactly` | src/main.c:1857-1861 | with the table size expected, all are received if and only if the table is full of distinct identifiers that were all heard |
| `Tracker.IdentifierReceived` | src/main.c:2051-2098 | the consumer reads the identifier out of any payload that holds a message up to its last hexadecimal digit, whatever comes before its brace |
| `PubSubState.PutAppends` | src/pubsub.c:104-133 | publish is accepted if and only if fewer than 63 messages wait, and goes to the end |
| `PubSubState.TakeRemovesFirst` | src/pubsub.c:208-213 | taking removes the oldest message |
| `PubSubState.QueuedAt` | src/pubsub.c:248-270 | the computed size is the queue's length, across any wrap |
| `PubSubState.CreateKeepsUnique` | src/pubsub.c:53-85 | topic names stay unique if and only if the stored, possibly shortened, name is new; always for names of at most 31 characters |
| `PubSubState.SubscribeKeeps` | src/pubsub.c:136-171 | registry invariants kept; refused exactly when 32 slots have been used or a new topic has no room; otherwise the lowest free slot is filled with the callback, its data and the stored name, and the high-water mark covers it |
| `PubSubState.CreateGives` | src/pubsub.c:53-85 | a known name gives its first index, a new one the next, with an empty queue under the stored name, and nothing else changes; a full table refuses both |
| `PubSubState.PublishGives` | src/pubsub.c:104-133 | a publish succeeds if and only if the topic is known and fewer than 63 messages wait; then the message is at the end of that queue and nothing else has changed |
| `PubSubState.UnsubscribeClears` | src/pubsub.c:174-192 | unsubscribing succeeds if and only if the slot is active; then the slot is inactive, without callback and topic; every other slot, the topics and the high-water mark are unchanged |
| `PubSubState.ClearGives` | src/pubsub.c:291-306 | clearing empties the queue of that topic and changes nothing else |
| `PubSubRuns.RunConserves` | src/pubsub.c:208-231 | whatever the interleaving of publishers and processors, what a topic accepted is what was taken followed by what is queued |
| `PubSubRuns.CallsAreOnce` | src/pubsub.c:214-226 | no slot is called twice for a message, and each call is made by the one activation that took the message |
| `PubSubRuns.SubscriberHears` | src/pubsub.c:214-226 | a subscriber that stays subscribed is called for every message taken from its topic |
| `PubSubRuns.DequeueTakes` | src/pubsub.c:208-215 | an idle activation takes the oldest waiting message of its topic, exactly when there is one |
| `PubSubRuns.DeliveryEnds` | src/pubsub.c:218-226 | once it has turned to all 32 slots, whatever happens in between, it is idle again |
| `PubSubRuns.EveryoneIsCalled` | src/pubsub.c:211-229 | so by then a taken message has been delivered to every subscriber of its topic that stays |
| `PubSubRuns.PublishedIsCalled` | src/pubsub.c:104-231 | from publish to callback: a message published to a topic with nothing waiting, and taken, is delivered to every subscriber that stays, whatever the other tasks do meanwhile |
| `PubSubRuns.SubscribesAndCreates` | src/pubsub.c:136-171 | in a run an accepted subscription fills a free slot with its callback and data and hears its topic; a created topic is known unless the table was full |
| `PubSubRuns.InactiveIsSilent` | src/pubsub.c:218-220 | over every run that does not fill it an inactive slot is not called |
| `PubSubRuns.UnsubscribedIsSilent` | src/pubsub.c:174-192 | so from a cancellation on, with deliveries under way and whatever follows, the slot is not called until a subscription fills it |
| `PubSubRuns.NamesStayUnique` | src/pubsub.c:53-85 | over every run with names of at most 31 characters |
| `PubSubRuns.SlotsRunOut` | src/pubsub.c:141-162 | the high-water mark never falls, so once it is 32 every subscription is refused |
| `PubSub.Manager.PublishMessage` | src/pubsub.c:104-133 | the publish of the registry model, under the topic's lock, which is free before and after |
| `PubSub.Manager.CreateNewTopic` | src/pubsub.c:53-85 | the first use of a name, its index when known, -1 on a full table even for a known name |
| `PubSub.Manager.AddSubscriber` | src/pubsub.c:136-171 | the first free slot gets the callback, its data and the topic, which is created if needed |
| `PubSub.Manager.RemoveSubscriber` | src/pubsub.c:174-192 | true if and only if the slot is active; then it is inactive, without callback and topic, and all else is unchanged |
| `PubSub.Manager.ClearTopic` | src/pubsub.c:291-306 | nothing waits in the topic's queue any more, and all else is unchanged |
| `PubSubCalls.SlotCallsExactly` | src/pubsub.c:218-226 | one message is delivered to exactly the active slots of its topic, in ascending order, each with its own callback and data |
| `PubSubCalls.CallsInOrder` | src/pubsub.c:211-229 | several messages are delivered one after the other |
| `PubSub.Manager.SubscriberCount` | src/pubsub.c:273-288 | as many subscribers as a message of the topic would be delivered to |
| `PubSub.Manager.QueueSize` | src/pubsub.c:248-270 | the number of waiting messages, 0 for an unknown topic |
| `PubSub.Manager.ProcessTopic` | src/pubsub.c:195-232 | calls every subscriber for every waiting message in FIFO order, slots ascending; leaves the queue empty and the lock free |
| `PubSub.Manager.ProcessAll` | src/pubsub.c:235-245 | ends with every queue empty; what each topic has accepted and the callbacks made are exactly those of a pass in which each callback's posts are published, determined by registry, waiting messages and callbacks; the calls are ordered by topic index, acceptance and ascending slot |
| `PubSubCalls.PassGoesOn` | src/pubsub.c:235-245 | draining one topic, message by message as the loop does, takes a pass exactly one topic further |
| `PubSubCalls.PostGives` | src/pubsub.c:104-133 | what a callback publishes joins its topic's queue and history if and only if the topic is known and fewer than 63 messages wait; otherwise it is lost and nothing changes |
| `PubSubCalls.CallPosts` | src/pubsub.c:221-224 | a call is recorded, and then what it publishes is published |
| `PubSubCalls.QuietPass` | src/pubsub.c:235-245 | callbacks that post nothing add nothing to what any topic has accepted |
| `UartState.StepBounds` | src/tcp_uart.c:484-894 | from any state in bounds any byte keeps the text at most 800 bytes, the payload count nonnegative and the queue at most 10; the 1023 guard never bites |
| `UartRuns.RunBounds` | src/tcp_uart.c:484-894 | so for every byte stream |
| `UartRuns.PayloadIsExact` | src/tcp_uart.c:493-516 | once n payload bytes are announced the next n bytes are payload whatever they spell, and then header scanning resumes |
| `UartRuns.FrameArrives` | src/tcp_uart.c:537-587 | an object framed by a header that is ten bytes into the buffer is parsed and put into the queue, and the reader is idle again; what stands before the header is quiet: no plus sign, no NUL, not both braces |
| `UartRuns.FrameLost` | src/tcp_uart.c:537-587 | behind such quiet bytes, a header that ends before the tenth byte costs the payload's bytes up to there, if no plus sign is among them, and the object |
| `UartRuns.FramesArrive` | src/tcp_uart.c:537-587 | any number of frames that arrive one by one arrive in order, up to the queue's room, and the reader is idle again |
| `UartHeaders.FrameDropped` | src/tcp_uart.c:820-882 | an object in a frame that has no id key is read off and removed, and the queue is as it was |
| `UartHeaders.DataLengthCounts` | src/tcp_uart.c:711-772 | a +DATA header with a length, wherever a scan finds it: what the buffer holds behind its colon stays and counts as received payload |
| `UartHeaders.DataFrameTaken` | src/tcp_uart.c:704-772 | an object in a +DATA frame with a length is taken, queued if it is a message, and the reader is idle again; its header needs nothing before it |
| `UartHeaders.RecvAnswered` | src/tcp_uart.c:589-700 | a +RECV line that ends at the tenth byte or later is remembered and answered with the one command that fetches that many bytes, and the buffer is empty |
| `UartHeaders.BareAnywhere` | src/tcp_uart.c:775-808 | "+DATA:" without a length, wherever a scan finds it: with a length pending only the second byte behind the colon is kept, and the length is forgotten; it is marked as seen, and once seen it is plain text |
| `UartHeaders.BareData` | src/tcp_uart.c:775-808 | so when it has just arrived, what is kept is the stale byte behind the buffer's NUL |
| `UartHeaders.FetchedObjectTaken` | src/tcp_uart.c:589-808 | the passive exchange: length announced, fetched, and the object behind "+DATA:" taken, though nothing counts its bytes any more |
| `UartHeaders.UnframedObject` | src/tcp_uart.c:816-884 | an object without a plus sign outside any frame, behind quiet bytes, is taken just the same |
| `UartHeaders.OverflowKeepsLast` | src/tcp_uart.c:886-894 | a byte that makes the buffer exceed 800 leaves its last 512 |
| `UartMessages.MessageArrivesExactly` | src/tcp_uart.c:1626-1727 | a built message sent in a frame after quiet bytes, at most 700, is put into the queue, unless that is full, with its id, category, hash and text, if and only if at least one byte stands before its header |
| `UartMessages.MessagesArrive` | src/tcp_uart.c:484-894 | any number of built messages, each in a frame after at least one quiet byte, come out of the reader in the order sent, each with its id, category, hash and text, as many as the queue has room for |
| `Uart.ResponseQueue.QueuePut` | src/tcp_uart.c:322-331 | bounded FIFO of ten |
| `Uart.ResponseQueue.QueueGet` | src/tcp_uart.c:333-343 | removes the oldest |
| `Uart.UartReader.DetectIpd` | src/tcp_uart.c:535-551 | the header search on the buffer |
| `Uart.UartReader.DetectData` | src/tcp_uart.c:704-814 | the +DATA branches, in place |
| `Uart.UartReader.CompleteObject` | src/tcp_uart.c:820-882 | the backward search for a brace, the parse and the removal |
| `Uart.UartReader.ReceiveByte` | src/tcp_uart.c:484-894 | the loop body for one byte, on the static buffer, is the step of the model; the buffer stays NUL-terminated |

## Left out

- The copy helper's own return frame and cc65's software stack: the helper is taken to run off the hardware page.
- `Kernel.Scheduler.CtxSwitch`: the slots for A, X and Y are not modelled; A and Y are overwritten after they have been loaded, and compiled callers expect nothing of X.
- Tasks and program counters: a task is what it does to its stack page between kernel calls.
- `QueueTestLimit.RunHalts`: other queues are idle here, since words of theirs in flight can carry the totals past the wrap; `QueueTestCrossing.RunEndsExactly` covers every mix.
- Interrupts, C11 atomics and the atomic branch of the ring queue.
- `scheduler_get_ticks`, CPU percentages, stack high-water reporting, `task_monitor`, throttling and all printing: reports only.
- The throttled demo tasks on the other queue: they only add sleeping to the same queue operations.
- `sha256_simple` and CRC-32: a digest is any 32 bytes, and the ROM theorems hold for every checksum function.
- `build_formatted_msg`.
- Static buffers of the builders are fresh arrays here; nothing reads what a former call left in them.
- `add_binary_file` options and the vector helpers of the ROM packer, `send_rom`, the serial console and the configuration file.
- Null pointers for the publish/subscribe manager, topics and callbacks, which the program refuses with -1, false or nothing.
- `PubSub.Manager.ProcessAll`: callbacks only publish, and only to later topics, without which the pass need not end; what other callbacks do is covered one step at a time by `PubSubRuns`.
- `pubsub_clear_queue` in the conservation theorem; the method `ClearTopic` models it alone.
- The busy wait of a lock that is held: locks are shown free wherever they are taken.
- `uart_reader_loop` when no byte is available: time-outs, retries and salvage; and its limit of 500 bytes a call.
- The debug chunk buffer, echoes and the retry counter of the reader.
- The message trackers of the modem side, MQTT transfer, WiFi set-up and XRAM: input and output only.
