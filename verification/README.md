# Verified models of the ndsl network library

ndsl is an epoll-based network framework in C++.  This project models its self-contained mechanisms in
Dafny and proves what they are for:

- **Time wheel** (`WheelModel`, `WheelRuns`, `WheelTimes`, `WheelOrder`, `WheelTwins`, `WheelArming`,
  `TimeWheel`): 60 slots and a remaining count per entry stand in for a list of countdowns.  The classes are
  proved step by step against the value model, the value model is proved to refine the countdown list over
  every run, and firing times follow from that, as does the order in which entries fire within a tick.
- **Message framing** (`Framing`, `Multiplexer`, `Routing`): an 8-byte header and a payload, cut anywhere
  by TCP and rebuilt from a saved partial header and body whose progress is measured with `strlen`.
- **Worker pool and event loop** (`WorkerPool`, `WorkerPoolProofs`, `EventLoop`, `EventLoopProofs`,
  `WorkQueue`): concurrent protocols as transition systems whose steps are single critical sections,
  signals, waits and counter accesses, and the work queue as a class.
- **Checksum** (`Crc16`, `Dtp`): the CRC loop against polynomial division, and the errors it detects.
- **DNS queries** (`DnsTable`, `DnsName`, `DnsWire`, `Dns`): the in-place label encoder (section 3.1 of RFC 1035), the
  parser's skipping of questions (section 4.1.2), and the table of pending queries as 64 circular
  doubly-linked lists.
- **RDMA completions** (`RdmaCompletions`), **event loop pool** (`LoopPool`), **ids** (`Guid`) and
  **paths** (`FtpPath`).

`Basics` holds the optional value, the byte type and a division lemma, and `Sequences` removal of a first
occurrence and joining with a separator.  `dafny verify dfyconfig.toml` checks everything.

## How the source is read

- Code that updates objects in place is a class whose methods are proved against functions of the old
  state; shared-memory protocols are transition systems with `Reachable` states.  Fields that only record
  history (serial numbers, logs, what has been handled) are ghost or documented as history.
- Integers are unbounded where the code does not rely on their width.  The width matters in the CRC (8 and
  16 bits), the 32-bit numbers of a frame header, and the request counter of DNS (32 bits, of which 16
  travel in a packet); there it is explicit.
- Callbacks, sockets, timers, polling and directory contents are parameters: a chunk arrives, a batch of
  completions is polled, `there(directory, name)` says what a directory lists, `posts` is what a callback
  posts, `react` what it makes of the work queue.
- Timer callbacks do not touch the wheel.  Runs of the wheel (`WheelRuns`) add only entries that are not
  armed, which is exactly when adding keeps the wheel's invariant (`WheelModel.AddKeepsValid`).
- In `Multiplexer`, messages on the wire are control messages, with id 0; their payloads are not empty and
  free of zero bytes, a body buffer is followed by a zero byte, the uninitialised length variable of
  `dispatch` is not 0 (`junk`), and a chunk plus any payload fits in the receive buffer.  A header that is cut
  after other bytes of the same chunk (a late header) is not excluded: `BufInfo.Dispatch` says exactly what
  it does.
- The wait of `EventLoop` may report any 64 of the channels that are ready when there are more, as
  `epoll_wait` promises no order.

## Where the code falls short of what it is for

- A periodic timer entry with interval 0 fires again after 60 ticks, not after 1
  (`WheelRuns.ZeroIntervalSchedule`), and an entry with count 0 fires once (`WheelRuns.AddedTaskSchedule`).
- Entries that fire on one tick fire in the order in which they were last armed, unless a periodic interval is
  a multiple of 60 ticks (or 0): such an entry goes back into the slot being handled, ahead of entries armed
  earlier that wait there for another turn (`WheelArming.ArmingOrderIff`, `WheelArming.MultiplesOvertake`).
- An entry added while it is armed stands in two slots, or twice in one, and is still in one after it has been
  removed (`WheelModel.AddKeepsValid`, `WheelModel.ReaddedSurvivesRemoval`).
- Late headers break reassembly: the fill loop compares the chunk length, not what is left of the chunk.  The
  saved state is wrong exactly then (`Multiplexer.BufInfo.Dispatch`), and a message can be lost and an empty
  one handed over in its place (`Multiplexer.LateHeaderLosesMessage`).
- A frame with an id other than 0 is handed to its client but not consumed, so the loop of `dispatch` never
  moves on from it (`Multiplexer.BufInfo.OtherFrameStalls`, `Multiplexer.BufInfo.Pass`).
- A pool without workers, which `setMaxThreads` allows, accepts work that is never run
  (`WorkerPoolProofs.QuitDoneIffWorkers`).
- An event loop with more channels than one wait can report may return with work left
  (`EventLoopProofs.QuitKeptIffChannelsFit`).  The run that shows it (`CrowdedLoopLosesWork`) rests on the
  wait's freedom to report any 64 of the ready channels: it leaves the queue's counter out and reports an
  interrupt that was raised later.  A wait that reported channels in the order they became ready would not
  give this run.
- Two pending DNS queries with the same 16-bit id hide each other: each pending query is found by its id if
  and only if all ids differ (`DnsTable.FoundIffDistinct`, `DnsTable.SharedIdDiffers`).  A task requested
  again while it is pending, under another id, leaves its older entry with an id that is no longer the task's
  (`Dns.Dns.Request`).
- A first label of 64 characters, and an empty label, are encoded but not skipped as they were written
  (`DnsName.SkipExactIff`).
- `start` on a full pool of event loops takes it past its maximum (`LoopPool.StartTwice`); the loops beyond it
  are never handed out (`LoopPool.LoadOf`).

## Model

| member | source | states |
|---|---|---|
| WheelModel.VisitCounts | src/ndsl/net/TimeWheel.cc:194-222 | one tick for one entry: the slot index, the hand and the rest interval together encode the ticks left, which fall by one, and at one the entry fires and is armed for a whole period or dropped |
| WheelModel.AddKeepsValid | src/ndsl/net/TimeWheel.cc:111-135 | after adding, every armed entry is in exactly one slot, once, the one it names, if and only if the entry added was not armed before |
| WheelModel.ReaddedSurvivesRemoval | src/ndsl/net/TimeWheel.cc:111-164 | an entry added while armed is still in its old slot when it has been removed |
| WheelModel.RemoveKeepsValid | src/ndsl/net/TimeWheel.cc:137-164 | so does removing |
| WheelModel.TickKeepsValid | src/ndsl/net/TimeWheel.cc:182-225 | so does a tick, with re-arming into the current slot as well |
| WheelModel.AddRefines | src/ndsl/net/TimeWheel.cc:122-132 | an entry added is a countdown of its interval, or of 1 for interval 0, multiples of 60 included |
| WheelModel.RemoveRefines | src/ndsl/net/TimeWheel.cc:149-161 | removing takes exactly that countdown away |
| WheelModel.TickFiresArmedOnce | src/ndsl/net/TimeWheel.cc:189-223 | a tick fires only armed entries, none twice |
| WheelModel.TickRefines | src/ndsl/net/TimeWheel.cc:182-225 | a tick fires exactly the countdowns at one and counts all others down by one |
| WheelRuns.RunRefines | src/ndsl/net/TimeWheel.cc:111-225 | over every run of ticks, removals and adds of entries not armed, wheel and countdown list agree and fire the same entries at every tick |
| WheelRuns.CountdownSchedule | src/ndsl/net/TimeWheel.cc:194-222 | a countdown left alone fires at remaining, remaining + period, ... for as long as its count lasts, and at no other tick |
| WheelRuns.AddedTaskSchedule | src/ndsl/net/TimeWheel.cc:111-225 | an entry armed at T fires at T + interval and then every interval, exactly as often as its count says (without end for -1), never early or late, and is armed afterwards exactly if firings remain |
| WheelRuns.ZeroIntervalSchedule | src/ndsl/net/TimeWheel.cc:111-225 | with interval 0 and firings to come, the first two come one tick and 61 ticks after the adding |
| WheelTimes.AddedTaskFiresOnTime | src/ndsl/net/TimeWheel.cc:111-225 | with an interval of at least 1, the n-th tick after the adding fires the entry if and only if n is a multiple of the interval and n / interval is within the count; a negative count is no limit, and a count of 0 is one of 1 |
| WheelRuns.RemovedTaskIsSilent | src/ndsl/net/TimeWheel.cc:137-164 | a removed entry never fires until it is added again |
| WheelOrder.TickFiresInOrder | src/ndsl/net/TimeWheel.cc:192-223 | of two entries that fire on a tick, the first was last armed, added or re-armed, before the second, whatever the intervals, unless it has been re-armed with a multiple of 60 ticks |
| WheelOrder.RunKeepsOrder | src/ndsl/net/TimeWheel.cc:111-225 | the slot order that this rests on holds over every run |
| WheelTwins.PairFires | src/ndsl/net/TimeWheel.cc:192-223 | two entries with equal countdowns, one ahead of the other in their slot, fire together in that order, and re-armed with one interval they stay so |
| WheelTwins.TwinsFireTogether | src/ndsl/net/TimeWheel.cc:111-225 | so over every run that leaves the two alone, on every tick on which both are armed |
| WheelTwins.AddedTogetherFireTogether | src/ndsl/net/TimeWheel.cc:111-225 | two entries of equal interval added one after the other fire together, in the order they were added, on every tick on which both are armed |
| WheelArming.MultiplesOvertake | src/ndsl/net/TimeWheel.cc:194-222 | for every multiple of 60, 0 included, a run from the empty wheel with that one periodic interval that fires out of arming order |
| WheelArming.ArmingOrderIff | src/ndsl/net/TimeWheel.cc:111-225 | every run fires in arming order if and only if no interval allowed for periodic entries is a multiple of 60 |
| TimeWheel.TimeWheel.AddTask | src/ndsl/net/TimeWheel.cc:111-135 | refuses a negative interval or a missing function and changes nothing then; else does to the value of the wheel what adding does, for armed entries too, where the wheel does not stay valid |
| TimeWheel.TimeWheel.RemoveTask | src/ndsl/net/TimeWheel.cc:137-164 | succeeds exactly for armed entries, and does what removing does |
| TimeWheel.TimeWheel.OnTick | src/ndsl/net/TimeWheel.cc:167-226 | the loop over the slot taken out, with in-place fields, does what a tick does and calls the same functions in the same order |
| TimeWheel.TimeWheel.MoveHand | src/ndsl/net/TimeWheel.cc:182-192 | the hand moves to the next of 60 slots, whose list is taken out |
| TimeWheel.TimeWheel.HandleTask | src/ndsl/net/TimeWheel.cc:194-222 | one pass: an entry not due waits another turn in its slot, a due one is called |
| TimeWheel.TimeWheel.HandleSlot | src/ndsl/net/TimeWheel.cc:194-223 | the loop alone, for every list taken out of a slot |
| TimeWheel.TimeWheel.FireTask | src/ndsl/net/TimeWheel.cc:200-221 | what follows a call: counting down, dropping at 0, re-arming otherwise |
| Framing.BigEndianRoundTrip | src/ndsl/net/Multiplexer.cc:169-170 | a 32-bit number survives being written and read highest byte first |
| Framing.BigEndianBytes | src/ndsl/net/Multiplexer.cc:169-170 | four bytes are written in the order of their weight, highest first |
| Framing.FrameParts | src/ndsl/net/Multiplexer.cc:158-178 | id, length and payload can be read off a frame, for every id |
| Framing.CutHeader | src/ndsl/net/Multiplexer.cc:204-221 | a header cut short and padded with zeros is determined by the bytes received, has id 0, and no larger a length |
| Framing.WireFrame | src/ndsl/net/Multiplexer.cc:158-178 | each message sent lies whole and in order on the wire |
| Framing.FrameNext | src/ndsl/net/Multiplexer.cc:203-248 | which frame a chunk goes on with at an offset, and where the wire stands after it |
| Framing.StringEnd | src/ndsl/net/Multiplexer.cc:249 | strlen of a body filled so far is the number of payload bytes copied |
| Multiplexer.SendMessage | src/ndsl/net/Multiplexer.cc:158-178 | the buffer sent has 8 bytes more than the payload: the id, whichever it is, the payload length, and the payload |
| Multiplexer.BufInfo.FillHead | src/ndsl/net/Multiplexer.cc:204-216 | the header takes what it misses, or the whole chunk length if that is less |
| Multiplexer.BufInfo.FillBody | src/ndsl/net/Multiplexer.cc:239-249 | the body takes what it misses of its length; its size is where its first zero is |
| Multiplexer.BufInfo.Pass | src/ndsl/net/Multiplexer.cc:203-264 | one pass in time keeps what the chunk has of the frame, or hands exactly its payload over and clears the state; a late pass leaves a header longer than what was received of it, or hands over an empty message, exactly if the chunk has 8 bytes and the padded length is 0; the header of a frame for another client is completed and kept; a pass at a complete header moves on if and only if its id is 0 |
| Multiplexer.BufInfo.OtherFrameStalls | src/ndsl/net/Multiplexer.cc:186-264 | from a cleared state, a chunk that begins with a whole header of non-zero id and goes on gets the loop to the end of the header and no further, in any number of passes |
| Multiplexer.StrLen | src/ndsl/net/Multiplexer.cc:249 | the place of the first zero byte, or the whole length |
| Multiplexer.BufInfo.Finish | src/ndsl/net/Multiplexer.cc:254-263 | a complete body is handed over and nothing is kept |
| Multiplexer.BufInfo.PassOn | src/ndsl/net/Multiplexer.cc:203-264 | the same pass as progress along a wire of control messages |
| Multiplexer.BufInfo.DispatchLoop | src/ndsl/net/Multiplexer.cc:203-264 | the loop ends, and has delivered exactly the messages completed by the chunk, in order, and one empty message more exactly if a late header counts as complete with length 0 |
| Multiplexer.BufInfo.Dispatch | src/ndsl/net/Multiplexer.cc:186-269 | after a chunk the saved state is what was received of the open frame if and only if the chunk does not end in a late header; what is delivered is exact in both cases; the buffer is cleared |
| Multiplexer.BufInfo.ReceiveAll | src/ndsl/net/Multiplexer.cc:158-269 | for every list of messages and every chunking of their wire, or of a beginning of it, in which only the last chunk may end in a late header, the messages delivered and the saved state are exact; once the whole wire is in, the messages delivered are the messages sent |
| Multiplexer.LateHeaderLosesMessage | src/ndsl/net/Multiplexer.cc:203-264 | messages [1] and [2], received as 10 and 8 bytes, are delivered as [1] and an empty message |
| Routing.ReflectsNext | src/ndsl/net/Multiplexer.cc:47-140 | each operation keeps the maps in step with the history of operations |
| Routing.InForceIff | src/ndsl/net/Multiplexer.cc:47-140 | the client in force is that of the first registration after the last removal, said of the places in the history |
| Routing.Router.Insert | src/ndsl/net/Multiplexer.cc:47-80 | an entity registered twice keeps its first client, and reception starts once per connection |
| Routing.Router.Remove | src/ndsl/net/Multiplexer.cc:111-140 | a removed entity has no client |
| Routing.Router.Solve | src/ndsl/net/Multiplexer.cc:272-302 | a message goes to the client registered first since the entity was last removed, or to nobody |
| WorkerPoolProofs.KeepsInv | src/ndsl/net/WQThreadpool.cc:65-135 | every step of every thread keeps mutual exclusion, the order of the queue, the wakeup invariant, conservation and the progress of quit |
| WorkerPoolProofs.ReachableInv | src/ndsl/net/WQThreadpool.cc:65-135 | so they hold in every reachable state, for any number of workers and callers |
| WorkerPoolProofs.NoLostWakeup | src/ndsl/net/WQThreadpool.cc:94-135 | with the mutex free and work queued, a sleeping worker implies another one awake on its way to the queue, spurious wakeups included |
| WorkerPoolProofs.CallsAreConserved | src/ndsl/net/WQThreadpool.cc:94-135 | over every run, each item that a call of addWork gave to the running pool is in a caller's hands, queued, with a worker or done, as often as it was given |
| WorkerPoolProofs.StoppedPoolRefuses | src/ndsl/net/WQThreadpool.cc:122-124 | a stopped pool stays stopped, and calls change nothing |
| WorkerPoolProofs.ItemsAreConserved | src/ndsl/net/WQThreadpool.cc:94-135 | every item queued is queued still, held by one worker, or done with once; items leave in the order they came |
| WorkerPoolProofs.QuitMeansDone | src/ndsl/net/WQThreadpool.cc:65-119 | when quit has returned, every worker has exited on exactly one stop item and everything queued before quit began has run exactly once |
| WorkerPoolProofs.QuitFinishesWhatWasGiven | src/ndsl/net/WQThreadpool.cc:65-135 | over a whole run with a call of quit that has returned: what was queued at the call was taken in that order, and every item given by a call before it has been done with as often as it was given, but for calls that had not reached the queue |
| WorkerPoolProofs.NoWorkersStrandWork | src/ndsl/net/WQThreadpool.cc:36-45 | with no workers, quit returns and leaves queued work |
| WorkerPoolProofs.QuitDoneIffWorkers | src/ndsl/net/WQThreadpool.cc:50-86 | quit keeps its promise in every run if and only if there is a worker |
| WorkerPoolProofs.StopsLeftForLiveWorkers | src/ndsl/net/WQThreadpool.cc:69-86 | from the last stop item on, the stop items queued are always as many as the workers that have taken none |
| WorkerPoolProofs.SleeperIsNotAlone | src/ndsl/net/WQThreadpool.cc:69-119 | while joining, with the mutex free, a sleeping worker has its stop item queued and another worker is awake |
| WorkerPoolProofs.QuitNeverStuck | src/ndsl/net/WQThreadpool.cc:65-119 | from the call of quit to its return some thread can go on: the joins cannot deadlock |
| WorkerPoolProofs.StepDecreases | src/ndsl/net/WQThreadpool.cc:65-135 | every step that brings a thread forward lowers a measure |
| WorkerPoolProofs.RunsAreBounded | src/ndsl/net/WQThreadpool.cc:65-135 | so no run has more such steps than its calls and spurious wakeups pay for |
| WorkerPoolProofs.QuitReturns | src/ndsl/net/WQThreadpool.cc:65-135 | after the call of quit, every run of such steps that cannot be extended ends with quit returned, and is no longer than the measure says |
| WorkerPoolProofs.QuitCanReturn | src/ndsl/net/WQThreadpool.cc:65-135 | and such a run exists from every reachable state |
| EventLoopProofs.KeepsInv | src/ndsl/net/EventLoop.cc:92-148 | every step of the loop and of the threads around it keeps the invariants below |
| EventLoopProofs.WorkIsConserved | include/ndsl/utils/WorkQueue.h:49-112 | every item enqueued is executed, running, in the batch, queued or removed: exactly one of these, once |
| EventLoopProofs.ExecutedInOrder | include/ndsl/utils/WorkQueue.h:49-70 | items run in enqueue order, also when callbacks enqueue more |
| EventLoopProofs.ItemsAreConserved | include/ndsl/utils/WorkQueue.h:49-112 | over every run, each item is executed, running, in the batch, queued or removed by a call that asked for it exactly as often as it was added |
| EventLoopProofs.RemoveTakesItem | include/ndsl/utils/WorkQueue.h:82-96 | a removal takes the first queued occurrence of the item asked for and nothing else, and changes nothing if there is none |
| EventLoopProofs.RemovedItemNeverRuns | include/ndsl/utils/WorkQueue.h:82-96 | when the removal of an item's only pending enqueueing has succeeded, the item does not run again until it is added again |
| EventLoopProofs.RemovedNeverRuns | include/ndsl/utils/WorkQueue.h:82-96 | an enqueueing that was removed never runs |
| EventLoopProofs.NoStrandedWork | include/ndsl/net/EventLoop.h:64-88 | while an item whose addWork has returned is queued, the counter is positive or the loop is draining |
| EventLoopProofs.LoopReturnsWithWorkDone | src/ndsl/net/EventLoop.cc:92-143 | with at most 64 registered channels, everything added before the wait that saw the interrupt, so before each quit called up to then, has run or been removed when the loop returns |
| EventLoopProofs.CrowdedLoopLosesWork | src/ndsl/net/Epoll.cc:109-140 | with more, a run exists in which it has not, given a wait that may report any 64 of the ready channels |
| EventLoopProofs.QuitKeptIffChannelsFit | src/ndsl/net/EventLoop.cc:92-143 | that promise holds in every run if and only if all channels fit in one wait |
| EventLoopProofs.FirstQuitIsKept | src/ndsl/net/EventLoop.cc:92-143 | over a run with a first call of quit in it: when the loop has returned, everything added before that call has run or been removed |
| EventLoopProofs.CountIsExact | src/ndsl/net/EventLoop.cc:92-143 | the queue's counter is at all times the writes to it less the loop's reads |
| EventLoopProofs.QuitsAreCounted | src/ndsl/net/EventLoop.cc:92-148 | in every reachable state the interrupts raised and not read are the calls of quit, less the one that ended the loop |
| EventLoopProofs.QuitIsSeen | src/ndsl/net/EventLoop.cc:92-143 | with at most 64 channels, a quit called at any time, the loop busy or not, makes the next wait return, and the loop ends before another wait |
| EventLoopProofs.LoopStepDecreases | src/ndsl/net/EventLoop.cc:92-143 | each step of the loop between two waits lowers a measure |
| EventLoopProofs.DrainRunsAll | include/ndsl/utils/WorkQueue.h:49-70 | with nobody adding or removing, a drain ends with the queue empty and the whole line of items run in order |
| EventLoopProofs.AddedWorkIsRun | src/ndsl/net/EventLoop.cc:92-148 | with at most 64 channels, a loop that waits while added work is queued is woken, whatever the wait reports it goes on to drain, and that work runs before the next wait |
| WorkQueue.WithoutCounts | include/ndsl/utils/WorkQueue.h:82-96 | removing takes one occurrence, and nothing if there is none |
| WorkQueue.WorkQueue.Enqueue | include/ndsl/utils/WorkQueue.h:74-80 | an item goes to the back |
| WorkQueue.WorkQueue.DequeueItem | include/ndsl/utils/WorkQueue.h:82-96 | succeeds exactly if the item is queued, and takes its first occurrence |
| WorkQueue.WorkQueue.Dequeue | include/ndsl/utils/WorkQueue.h:99-112 | takes the front, or tells that there is none |
| WorkQueue.WorkQueue.Doit | include/ndsl/utils/WorkQueue.h:49-70 | runs exactly the batch it took, in order, whatever the callbacks do to the queue, and leaves what they make of it one after the other |
| WorkQueue.EnqueuingItems | include/ndsl/utils/WorkQueue.h:49-80 | callbacks that only enqueue leave exactly what they enqueued, in order |
| Crc16.DivisionExists | src/ndsl/net/DTP.cc:653-658 | a bit string is quotient times generator plus remainder |
| Crc16.DivisionUnique | src/ndsl/net/DTP.cc:653-658 | and only one quotient and remainder do that |
| Crc16.FeedIsRemainder | src/ndsl/net/DTP.cc:649-659 | the register loop computes the remainder of the bits times x^16 |
| Crc16.FeedIsXorSteps | src/ndsl/net/DTP.cc:652-658 | up to 16 bits fed singly are the same as XORing them in and stepping |
| Crc16.FeedLinear | src/ndsl/net/DTP.cc:649-659 | the register is linear over XOR for equal lengths |
| Crc16.StepKeepsNonZero | src/ndsl/net/DTP.cc:653-658 | a step takes only the zero register to zero |
| Crc16.FeedParity | src/ndsl/net/DTP.cc:646-659 | the register keeps the parity of what it was fed |
| Crc16.BurstDetected | src/ndsl/net/DTP.cc:643-662 | every error within 16 consecutive bits changes the remainder, at any length |
| Crc16.OddErrorDetected | src/ndsl/net/DTP.cc:643-662 | so does every error of odd weight |
| Crc16.MissedIffMultiple | src/ndsl/net/DTP.cc:643-662 | an error is missed if and only if its pattern times x^16 is a multiple of the generator |
| Dtp.Polynomials | src/ndsl/net/DTP.cc:646 | 0x1021 is x^12 + x^5 + 1 with x^16 implied, and 0x8408 is it read backwards |
| Dtp.GeneratorPowers | src/ndsl/net/DTP.cc:646 | the generator has x^12, x^5 and 1 below x^16 |
| Dtp.InvertUint8 | src/ndsl/net/DTP.cc:615-625 | the byte is reversed, also in place, and no other byte changes |
| Dtp.InvertUint16 | src/ndsl/net/DTP.cc:627-638 | the word is reversed, also in place |
| Dtp.ShiftIsStep | src/ndsl/net/DTP.cc:653-658 | the test of the top bit, the shift and the XOR are one step of the division |
| Dtp.FeedMessageByte | src/ndsl/net/DTP.cc:650-658 | one byte: reversed, XORed in at the high half, and eight steps, feeds its bits low-first |
| Dtp.GetCrc16Ccitt | src/ndsl/net/DTP.cc:642-662 | the result is the reversed remainder of the message, bits taken low-first in each byte |
| Dtp.LsbCrcIsChecksum | src/ndsl/net/DTP.cc:642-662 | the low-bit-first register algorithm with 0x8408 computes the same checksum for every message |
| Dtp.DetectableChangesChecksum | src/ndsl/net/DTP.cc:957-964 | odd-weight errors and bursts of up to 16 bits change the checksum of a message of any length |
| Dtp.SameChecksumIffMultiple | src/ndsl/net/DTP.cc:957-964 | a wrong message passes if and only if its error pattern is a multiple of the generator |
| Dtp.RecvUdpData | src/ndsl/net/DTP.cc:946-988 | flag 10, a datagram handed over, exactly if its length and checksum match, and else flag 18; so never with a detectable error |
| DnsTable.FindInBucket | src/ndsl/net/Dns.cc:309-327 | searching the bucket of an id finds what searching all pending queries finds |
| DnsTable.DropInBucket | src/ndsl/net/Dns.cc:309-327 | unlinking in one bucket removes from the whole, and other buckets keep theirs |
| DnsTable.FindsNewest | src/ndsl/net/Dns.cc:147-152 | a lookup finds the newest pending query with the id |
| DnsTable.SpanMakesDistinct | src/ndsl/net/Dns.cc:148-149 | pending queries that span fewer than 65536 requests differ in their ids |
| DnsTable.FoundIffDistinct | src/ndsl/net/Dns.cc:309-327 | every pending query is found by its id if and only if all ids differ |
| DnsTable.StepAgrees | src/ndsl/net/Dns.cc:138-169 | one request with a free id, or one lookup, does to the table what it does to a map from ids to entries |
| DnsTable.TakenIdDiffers | src/ndsl/net/Dns.cc:138-152 | a request whose id is taken adds an entry to the table and none to the map |
| DnsTable.RunAgrees | src/ndsl/net/Dns.cc:138-327 | table and map are of one size throughout a run if and only if every request entered finds its id free, and then their answers and final contents agree, failed encodings included |
| DnsTable.SpansAreFresh | src/ndsl/net/Dns.cc:148-149 | requests that find every pending query fewer than 65536 requests old find their ids free |
| DnsTable.SharedIdDiffers | src/ndsl/net/Dns.cc:138-327 | from the empty table, a run of 65537 requests in which two share an id, and of which two lookups get both where the map has lost one |
| DnsName.JoinLabels | src/ndsl/net/Dns.cc:196-217 | the labels of a name, joined by dots, are the name |
| DnsName.Coding | src/ndsl/net/Dns.cc:196-217 | the in-place pass succeeds if and only if no label is longer than 64, and then the buffer is the length-prefixed labels and a zero, domain size + 2 bytes |
| DnsWire.EncodableIff | src/ndsl/net/Dns.cc:196-217 | a name is encoded if and only if no 65 characters in a row are free of dots |
| DnsWire.WireAt | src/ndsl/net/Dns.cc:196-217 | position by position: where a stretch between dots begins, the buffer has its length, then its characters; a zero byte ends it |
| DnsName.DecodeEncode | src/ndsl/net/Dns.cc:196-217 | a reader of length-prefixed labels gets back every list of labels of 1 to 63 characters |
| DnsName.NameRoundTrip | src/ndsl/net/Dns.cc:196-217 | and so the name |
| DnsName.SkipExactIff | src/ndsl/net/Dns.cc:240-254 | for every encodable name without zero bytes, the parser moves over exactly the encoding and the tail if and only if the first label has at most 63 characters and none is empty |
| DnsName.SkipQuestion | src/ndsl/net/Dns.cc:242-253 | one question: six bytes for a pointer, whose mark is cleared, or five bytes from the first zero on |
| DnsName.QuestionSize | src/ndsl/net/Dns.cc:240-254 | a question for an encoded name of n characters takes n + 2 and 4 bytes |
| DnsName.SkipQuestions | src/ndsl/net/Dns.cc:240-254 | the loop over all questions of a response ends where they end and changes nothing |
| Dns.ListEntry.InsertAfter | include/ndsl/net/Dns.h:69-74 | a circular doubly-linked list stays one, with the entry behind its head |
| Dns.ListEntry.Erase | include/ndsl/net/Dns.h:75-78 | and stays one without the entry |
| Dns.Dns.Request | src/ndsl/net/Dns.cc:138-194 | numbers and enters a query, or withdraws it when its name cannot be encoded; lists and count stay right and the list of pending queries changes as the model says; every pending task keeps the id of its entry if and only if none of its own entries has another one |
| Dns.Dns.FindQuery | src/ndsl/net/Dns.cc:309-327 | returns and unlinks the query that the model finds, or null |
| RdmaCompletions.CompletionKeepsOrder | src/ndsl/net/RdmaConnection.cc:89-110 | completed and then queued entries of each buffer stay its posts in order |
| RdmaCompletions.EachPostOnce | src/ndsl/net/RdmaConnection.cc:84-114 | every post is completed once or still queued, none both |
| RdmaCompletions.CompletedInPostingOrder | src/ndsl/net/RdmaConnection.cc:84-114 | completions of one buffer come in the order of its posts |
| RdmaCompletions.Completions.Post | src/ndsl/net/RdmaConnection.cc:477-486 | a post goes to the back of the queue |
| RdmaCompletions.Completions.Match | src/ndsl/net/RdmaConnection.cc:84-114 | a completion takes the first entry with its id and leaves the others in order; an unknown one is dropped |
| RdmaCompletions.Completions.HandleBatch | src/ndsl/net/RdmaConnection.cc:134-165 | a batch owed by the queue, in any order and with posting callbacks, matches every completion once in batch order and never reads the front of an empty queue |
| LoopPool.ELThreadpool.Start | src/ndsl/net/ELThreadpool.cc:37-64 | opens one loop; the pool stays within its maximum unless it was full |
| LoopPool.StartTwice | src/ndsl/net/ELThreadpool.cc:37-64 | two starts with a maximum of 1 give two loops |
| LoopPool.ELThreadpool.GetNextEventLoop | src/ndsl/net/ELThreadpool.cc:66-98 | the next index stays within the loops, so the fatal branch is never taken; the loop in turn is returned, opened first if new, and a failure leaves the turn |
| LoopPool.ELThreadpool.SetMaxThreads | src/ndsl/net/ELThreadpool.cc:100-111 | refuses a maximum below the loops, and caps it at the capacity |
| LoopPool.ELThreadpool.GetMany | src/ndsl/net/ELThreadpool.cc:66-98 | of k calls, those fewer than the maximum apart return different loops, and each loop has been returned as often as its turn came, none within the maximum more than once oftener than another |
| LoopPool.CountIsFair | src/ndsl/net/ELThreadpool.cc:68-92 | over any k calls the turn of each loop comes k / maximum times or once more |
| LoopPool.LoadOf | src/ndsl/net/ELThreadpool.cc:68-92 | a loop is among the loops returned as often as its turn came, and never if it is beyond the maximum |
| LoopPool.LoadsOfTurns | src/ndsl/net/ELThreadpool.cc:68-92 | so among the loops returned no two loads differ by more than one |
| Guid.FirstDifferenceDecides | src/ndsl/utils/Guid.cc:94-110 | the first byte in which ids differ decides which 128-bit number is smaller |
| Guid.NumberIsInjective | src/ndsl/utils/Guid.cc:86-92 | equal numbers are equal ids |
| Guid.NextBit | src/ndsl/utils/Guid.cc:98-106 | comparing one masked bit carries agreement one bit further or decides |
| Guid.ParsePrinted | src/ndsl/utils/Guid.cc:19-84 | parsing inverts printing |
| Guid.PrintParsed | src/ndsl/utils/Guid.cc:19-84 | printing inverts parsing, up to the case of letters |
| Guid.ReadsAs | src/ndsl/utils/Guid.cc:29-84 | a character reads as d exactly if it is the d-th of 0123456789ABCDEF or of 0123456789abcdef |
| Guid.TextIff | src/ndsl/utils/Guid.cc:29-84 | a string is read exactly if its first 32 characters are among those 22 |
| Guid.ParseEitherCase | src/ndsl/utils/Guid.cc:29-84 | the text of an id with any of its digits in lower case gives the id back |
| Guid.PrintedDigits | src/ndsl/utils/Guid.cc:19-27 | a byte is printed as the digits of its two halves, in upper case |
| Guid.PrintingKeepsOrder | src/ndsl/utils/Guid.cc:19-110 | texts compare as strings exactly as ids compare as numbers |
| Guid.Guid.ToString | src/ndsl/utils/Guid.cc:19-27 | writes 32 digits and a zero character, and nothing beyond |
| Guid.Guid.ToGuid | src/ndsl/utils/Guid.cc:29-84 | succeeds exactly on 32 digits of either case, and leaves the id unchanged otherwise |
| Guid.Guid.Equals | src/ndsl/utils/Guid.cc:86-92 | equality of the numbers |
| Guid.Guid.Less | src/ndsl/utils/Guid.cc:94-110 | the bit-by-bit loop decides the order of the 128-bit numbers |
| Guid.Guid.Greater | src/ndsl/utils/Guid.cc:112-128 | and so does its mirror image |
| FtpPath.CutInvertsJoin | examples/ftp_ly/FileManage.cc:67-84 | cutting inverts joining, for every list of words |
| FtpPath.PaddingIgnored | examples/ftp_ly/FileManage.cc:55-65 | separators at the ends change no words |
| FtpPath.Trim | examples/ftp_ly/FileManage.cc:55-65 | takes off all separators at both ends and keeps the words |
| FtpPath.Split | examples/ftp_ly/FileManage.cc:67-84 | returns exactly the words of the string, none empty |
| FtpPath.WalkStaysInside | examples/ftp_ly/FileManage.cc:123-169 | a walk that succeeds from a place under the root ends at a place under the root, reached without going up; from any path from the root, at such a path |
| FtpPath.ChangeInTwo | examples/ftp_ly/FileManage.cc:123-169 | changing along "a/b" goes where changing along a and then along b goes |
| FtpPath.ChangeByOne | examples/ftp_ly/FileManage.cc:123-169 | a request of one word goes down exactly if the directory lists it and it is neither "." nor ".."; ".." goes up by one, and fails at the root |
| FtpPath.DownAndUp | examples/ftp_ly/FileManage.cc:123-169 | going down to a listed directory and up again leads back |
| FtpPath.Cwd | examples/ftp_ly/FileManage.cc:123-169 | equals the walk of a stack machine over the requested words; a failure returns the original path; from a place under the root the result is one |

## Left out

- Sockets, epoll, eventfd, timerfd and RDMA verbs: only their effect on the modelled state is.
- Protobuf, MD5, XML, V8, plugins, logging and time stamps: library code or thin wrappers.
- Send paths of `TcpConnection`, `UdpEndpoint`, `UnixConnection` and `PipeAndFifo`: data is written at once
  even when older data waits, so no ordering holds.
- File transfer and its timeouts in `DTP`: its accounting is not a usable specification.
- The answers of a DNS response and `Dns::stop`: an entry is unlinked at the first address record and
  dispatched only if that record is the last; `stop` leaves the count as it is.
- Dns.Dns.Request: the packet head and tail are not built, and a send error leaves the entry as the code does.
- Multiplexer.BufInfo.Dispatch: is stated for a wire of control messages only, since the loop does not end on
  any other frame (Multiplexer.BufInfo.OtherFrameStalls).
- Multiplexer.BufInfo.ReceiveAll: follows the wire up to the first chunk that ends in a late header, that one
  included; what comes after it is read against a false state.
- LoopPool.ELThreadpool.GetNextEventLoop: is not called while the maximum is 0, since the code divides by it.
- WheelRuns.RunRefines: covers runs up to the first adding of an armed entry, since the slots are wrong from
  there on.
- WorkerPool starts from a started pool: `start` and the race between its flag and its first callers are not modelled.
- EventLoop callbacks that add or remove work are modelled as other threads doing so while the callback runs.
- `Semaphore` and `EventLoopThreadpool`: a smaller and an older copy of what is modelled.
- FTP, proxy and relay examples other than the path code.
- Freeing of memory.
