# Verified models of the logging, routing and HTTP core

This project models the parts of the repository whose correctness rests on protocols, invariants
and arithmetic rather than on plumbing, and proves what they promise.

- **Lock-free queue** (`MpmcQueue`, `MpmcSafety`, `MpmcFifo`, `MpmcProgress`, `MachineWords`, `WrappedQueue`,
  `Slots`).
  Every atomic load, compare-and-swap and store of the bounded multi-producer multi-consumer queue is
  one step of a transition system with any number of threads; positions count without bound. An
  inductive invariant over all interleavings gives exclusive access to the cells, bounded occupancy,
  first-in first-out delivery in claim order, the exact meaning of a false return, and a bound on the
  steps that calls in flight still take. `MachineWords` shows that the mask and the signed difference
  of the wrapped 64-bit words compute what the model uses, and `WrappedQueue` that the whole queue on
  wrapped words takes the same steps as the one on unbounded positions. `BoundedQueueClass` is the same queue as a
  class with an array of cells, run by one thread at a time, which refines a bounded sequence.
- **Asynchronous logger** (`AsyncLog`, `AsyncLogSafety`, `AsyncLogShutdown`, `AsyncWorker`). Producers,
  the worker and the destructor run on top of the queue's transition system. At every moment of every
  run the sinks hold exactly what has been delivered, in order; under `block_retry` the worker returns
  only after it has delivered every message of every producer and flushed. `AsyncWorker` has the
  helper as an object whose methods run one at a time.
- **REST router** (`RouteStrings`, `RouteTable`, `RouteList`, `RouteDispatch`, `RouteOrder`,
  `RouteRoundTrip`, `RouteAsserts`, `RouterClass`). The trie is a tree of mutable nodes; its state is a
  table from paths to entries, and the table is held against the plain list of accepted routes: which
  routes are accepted, that a refused route changes nothing, that the order of registration is
  irrelevant, and what a lookup returns.
- **Rotating file sink** (`RotatingLog`, `RotatingSink`). Files of a directory by name, and what any run
  of log calls leaves in them.
- **Formatter** (`Decimal`, `DigitTable`, `DigitCount`, `IntFormat`, `NumberParse`, `IntPadding`,
  `MemoryBuffer`, `ArgList`, `FormatGrammar`, `FormatTemplates`, `FormatExact`, `FormatErrors`, `FormatShown`,
  `Formatter`). Digit counting, in-place decimal output, padding, argument packing, argument numbering and
  the format-string grammar, down to the class that walks along the format string and writes into the
  growing buffer. The grammar is held against templates written down piece by piece: exactly their
  spellings are accepted, and every refusal has its place and its error.
- **Pattern compiler** (`PatternFlags`, `PatternCompiler`, `PatternLaws`, `PatternDates`, `PatternWords`).
  Compiling a log pattern preserves its meaning; the flags that stand for longer patterns are held against
  them, and the others against the words and numbers they show.
- **HTTP/1.1 request parser** (`HttpParser`, `HttpOutcomes`, `HttpLaws`, `HttpConstants`). A line-consuming parser
  for the grammar of section 5 of RFC 2616, what every input results in, and the merge of the three header
  maps.

Modules over values carry the properties; classes carry the code that changes state, and each method
is proved against a function of those modules. `Wrappers` and `Powers` are shared.

## Where the code departs from what is said about it

- `parse_nonnegative_int` is meant to refuse every number beyond the largest `int`. Its wrap test is
  incomplete: 5000000000 is read as 705032704. Up to ten digits the numbers from 4772185884 to 6442450943
  and those from 9544371768 on are misread (`NumberParse.MisreadTenDigits`); for numbers of any length
  `NumberParse.ReadsCorrectlyIff` decides digit by digit, and there are some of every length.
- A handler registered for `/`, or for a route with an empty segment, is accepted but can never be
  found, because the lookup stops at the first empty segment (`RouteRoundTrip.ReachableIff`).
- The route comment in `router.h` writes identifiers as `<name:type>`; the code takes those for literals and
  recognises `:name` (`RouteStrings.AngleBracketsAreLiteral`, `RouteStrings.IdentifierIff`).
- The assertions on captured parameters can fail: exactly if an accepted route uses a name twice before its
  first empty segment (`RouteAsserts.AssertsHoldIff`).
- A filled-in argument that equals a literal sibling leads away from the route, and there is no
  backtracking; `RouteRoundTrip.FilledReachesIff` is exact.
- `%+` prints unsigned numbers. It is the pattern that its comment gives exactly when neither the year nor
  the millisecond part of the time is negative (`PatternLaws.FullIsLongIff`).
- `%c` does not pad the day of the month (`PatternDates.CtimeIff`); `%I` prints midnight as 00,
  not 12 (`PatternDates.TwelveHourIff`). `%z` is meant to be the ISO 8601 offset, and is exactly to the east
  of UTC and ten or more whole hours to the west of it (`PatternWords.OffsetIsIsoIff`).
- `parse_request` also takes a request line whose version is empty, if two white-space characters end it
  (`HttpOutcomes.RequestLineIff`).
- The header loop of `parse_request` sees `"\r"` as a line that is not empty. A request gets a body exactly if
  something follows two adjacent line feeds (`HttpLaws.BodyIff`), so a message whose lines end in CRLF
  never has one (`HttpLaws.NoBody`). A header line that ends at its colon makes
  `substr` throw inside a `noexcept` function (`HttpLaws.ParseHeadersIff`). The test for entity headers
  compares an iterator with the end of another list; the model takes the two as different, so every
  unknown name counts as an entity header.

## Model

| member | source | states |
|---|---|---|
| MpmcSafety.InitInv | ext/spdlog/include/spdlog/details/mpmc_bounded_q.h:62-74 | the constructor establishes the invariant: every cell's sequence says which position it waits for, no thread holds a cell |
| MpmcSafety.StepInv | ext/spdlog/include/spdlog/details/mpmc_bounded_q.h:82-133 | every atomic step of every thread, spurious compare-and-swap failures included, keeps the invariant |
| MpmcSafety.RunInv | ext/spdlog/include/spdlog/details/mpmc_bounded_q.h:82-133 | so it holds in every state that any interleaving of any number of producers and consumers reaches |
| MpmcSafety.CellsApart | ext/spdlog/include/spdlog/details/mpmc_bounded_q.h:105-106 | two threads between their claim and their sequence store are at different cells, so no two ever touch the same data |
| MpmcSafety.HeldCell | ext/spdlog/include/spdlog/details/mpmc_bounded_q.h:88-90 | the cell of a claimed position is in the phase its holder expects |
| MpmcFifo.StepRefinesFifo | ext/spdlog/include/spdlog/details/mpmc_bounded_q.h:82-133 | each step is a step of a bounded first-in first-out queue, taking effect at the compare-and-swap; at most `size` items are held |
| MpmcFifo.StepHistory | ext/spdlog/include/spdlog/details/mpmc_bounded_q.h:130-131 | what a consumer moves out of position p is what a producer stored for position p, once and never from an empty cell |
| MpmcFifo.RunFifo | ext/spdlog/include/spdlog/details/mpmc_bounded_q.h:93-132 | over whole runs the items taken, by position, are the items enqueued in claim order |
| MpmcFifo.QuiescentCells | ext/spdlog/include/spdlog/details/mpmc_bounded_q.h:105-132 | with no call in flight nothing is lost or duplicated: taken are exactly the positions before dequeue_pos, and the cells hold the rest in order |
| MpmcFifo.EnqueueFailsIff | ext/spdlog/include/spdlog/details/mpmc_bounded_q.h:86-107 | wherever a call is, its next step returns false exactly when it is at its sequence load with its position still next and the item one lap behind not yet released; a lost race never is the reason |
| MpmcFifo.DequeueFailsIff | ext/spdlog/include/spdlog/details/mpmc_bounded_q.h:114-132 | wherever a call is, its next step returns false exactly when it is at its sequence load with its position still next and the item there not yet published |
| MpmcFifo.EnqueueSucceedsIff | ext/spdlog/include/spdlog/details/mpmc_bounded_q.h:105-107 | a call returns true exactly when it publishes its item, under a position of its own |
| MpmcFifo.DequeueSucceedsIff | ext/spdlog/include/spdlog/details/mpmc_bounded_q.h:130-132 | a call returns an item exactly when it releases its cell, and it is the item that was enqueued for its position |
| MpmcFifo.FalseReturnHasReason | ext/spdlog/include/spdlog/details/mpmc_bounded_q.h:82-133 | in every run a call that has returned false came through a state in which its cell was still in use, or the head unpublished, and its thread has not moved since |
| MpmcFifo.QuiescentFailures | ext/spdlog/include/spdlog/details/mpmc_bounded_q.h:96-126 | with no other call in flight the two mean "holds size items" and "holds none" |
| MpmcProgress.RetryIsPaidFor | ext/spdlog/include/spdlog/details/mpmc_bounded_q.h:86-104 | every extra trip round a retry loop, but for spurious failures, is paid for by another thread's claim since the position was loaded |
| MpmcProgress.StepUsesMeasure | ext/spdlog/include/spdlog/details/mpmc_bounded_q.h:86-129 | every step of a call decreases a global measure |
| MpmcProgress.RunsEnd | ext/spdlog/include/spdlog/details/mpmc_bounded_q.h:86-129 | the calls in flight take a bounded number of steps in every interleaving: no retry loop goes on for ever |
| MachineWords.AcceptsPowersOfTwo | ext/spdlog/include/spdlog/details/mpmc_bounded_q.h:67-68 | the bit test accepts exactly the powers of two from 2 on |
| MachineWords.MaskPicksSlot | ext/spdlog/include/spdlog/details/mpmc_bounded_q.h:88 | masking with size - 1 picks the cell that the position has by counting laps |
| MachineWords.WrappedMaskPicksSlot | ext/spdlog/include/spdlog/details/mpmc_bounded_q.h:88 | and so it does once the position has wrapped round the 64-bit word |
| MachineWords.WrappedDifIsDif | ext/spdlog/include/spdlog/details/mpmc_bounded_q.h:90 | the signed difference of the wrapped words is the true difference exactly while the gap is less than half a word |
| WrappedQueue.SequenceWindow | ext/spdlog/include/spdlog/details/mpmc_bounded_q.h:88-90 | the sequence of every cell stays within a lap of both ends of the queue |
| WrappedQueue.StepWraps | ext/spdlog/include/spdlog/details/mpmc_bounded_q.h:82-133 | a step on 64-bit words that wrap, compare-and-swap included, is the step on unbounded positions, if the stepping thread has not fallen half a word behind |
| WrappedQueue.RunWraps | ext/spdlog/include/spdlog/details/mpmc_bounded_q.h:82-133 | so along every schedule the queue in memory stays the image of the unbounded queue: the same claims, failures and values |
| BoundedQueueClass.BoundedQueue.Create | ext/spdlog/include/spdlog/details/mpmc_bounded_q.h:62-74 | a queue is made exactly for powers of two from 2 on, and is empty |
| BoundedQueueClass.BoundedQueue.Enqueue | ext/spdlog/include/spdlog/details/mpmc_bounded_q.h:82-108 | the array of cells refines a bounded sequence: appends the item unless full, and a failed call changes nothing |
| BoundedQueueClass.BoundedQueue.Dequeue | ext/spdlog/include/spdlog/details/mpmc_bounded_q.h:110-133 | takes the oldest item unless empty, whatever the number of spurious failures |
| BoundedQueueClass.StoreHolds | ext/spdlog/include/spdlog/details/mpmc_bounded_q.h:105-106 | storing at the end position and publishing it keeps the cells in step with the longer sequence |
| BoundedQueueClass.TakeHolds | ext/spdlog/include/spdlog/details/mpmc_bounded_q.h:130-131 | releasing the first cell for the next lap keeps them in step with the rest of the sequence |
| AsyncLogSafety.ProducerStepInv | ext/spdlog/include/spdlog/details/async_log_helper.h:228-243 | every step of push_msg, retries included, keeps the invariant of the whole logger |
| AsyncLogSafety.WorkerStepInv | ext/spdlog/include/spdlog/details/async_log_helper.h:250-325 | so does every step of the worker's loop |
| AsyncLogSafety.PushReturnsIff | ext/spdlog/include/spdlog/details/async_log_helper.h:228-243 | a push returns exactly when its item is in the queue or, under discard_log_msg, was refused; under block_retry it starts again with the same item |
| AsyncLogShutdown.SysRunInv | ext/spdlog/include/spdlog/details/async_log_helper.h:207-325 | so the invariant holds at every moment of every run of producers, worker and destructor |
| AsyncLogShutdown.SinkLogsInOrder | ext/spdlog/include/spdlog/details/async_log_helper.h:271-300 | under both policies each sink holds exactly the delivered log messages in queue order, for each producer a subsequence of its calls in order |
| AsyncLogShutdown.FlushesIff | ext/spdlog/include/spdlog/details/async_log_helper.h:300-321 | finding the queue empty flushes every sink exactly if a flush or terminate message was delivered since the last flush or the interval has passed, and then every such message has had its flush |
| AsyncLogShutdown.FlushSplitsSink | ext/spdlog/include/spdlog/details/async_log_helper.h:271-321 | what a sink has got up to its last flush are the log messages delivered up to then, and behind it those delivered since |
| AsyncLogShutdown.ExitDeliversEverything | ext/spdlog/include/spdlog/details/async_log_helper.h:207-310 | once the worker has returned all producers are done, the queue is empty, every sink was flushed last, and under block_retry it has each producer's messages exactly once and in order |
| AsyncLogShutdown.NeverExitsEarly | ext/spdlog/include/spdlog/details/async_log_helper.h:300-310 | the worker returns only when every enqueued item has been delivered and a flush is due |
| AsyncLogShutdown.DrainedMeansTerminated | ext/spdlog/include/spdlog/details/async_log_helper.h:300-310 | a queue drained to its end has delivered the terminate message |
| AsyncLogShutdown.WorkerStepUsesRank | ext/spdlog/include/spdlog/details/async_log_helper.h:250-310 | once all pushes have returned every worker step uses up a rank |
| AsyncLogShutdown.WorkerEnds | ext/spdlog/include/spdlog/details/async_log_helper.h:250-310 | the worker's loop then ends, with at most one iteration for each item left, a stale failure, and one to return |
| AsyncWorker.AsyncLogHelper.PushMsg | ext/spdlog/include/spdlog/details/async_log_helper.h:228-243 | a message is appended, or dropped when full under discard_log_msg; under block_retry the do-while sleeps and retries until the worker has had a turn and taken an item (one thread at a time; all interleavings are in AsyncLogSafety) |
| AsyncWorker.AsyncLogHelper.HandleFlushInterval | ext/spdlog/include/spdlog/details/async_log_helper.h:312-325 | flushes every sink, clears the request and restarts the interval exactly if a flush was requested or the interval has passed |
| AsyncWorker.AsyncLogHelper.ProcessNextMsg | ext/spdlog/include/spdlog/details/async_log_helper.h:271-310 | handles one message (a log message goes to every sink, a flush or terminate message asks for a flush) or an empty queue, and keeps the times of the last pop and the last flush; false exactly for an empty queue after a terminate message |
| AsyncWorker.AsyncLogHelper.WorkerLoop | ext/spdlog/include/spdlog/details/async_log_helper.h:250-268 | with a terminate message queued the loop ends after one iteration per item and one more, every sink having got exactly the queued log messages in order and then one flush |
| AsyncWorker.AfterItemsIs | ext/spdlog/include/spdlog/details/async_log_helper.h:277-299 | handling any items appends their log messages in order to every sink, asks for a flush exactly if one was asked for or a flush or terminate message is among them, and notices a terminate message |
| AsyncWorker.FlushIsServed | ext/spdlog/include/spdlog/details/async_log_helper.h:277-321 | handling any items and then finding the queue empty gives every sink their log messages in order, and one flush exactly if one was asked for before, by one of them, or by the clock |
| RouteStrings.JoinSplit | librest/include/router.hpp:15-19 | joining what the split at the slashes gives is the route |
| RouteStrings.SplitJoin | librest/include/router.hpp:15-19 | splitting joined slash-free segments gives the segments |
| RouteStrings.IdentifierIff | librest/include/router.hpp:26-31 | a segment is dynamic exactly if it is a colon and a name of letters, digits and underscores that does not start with a digit; then that is its name, and every other segment is literal |
| RouteStrings.AngleBracketsAreLiteral | librest/include/router.h:43-46 | the documented `<name:type>` is a literal segment to the code |
| RouteTable.AddSegmentLinked | librest/include/router.hpp:32-49 | one turn of add_route keeps the tree: a dynamic child exactly where there is an identifier, every parent there |
| RouteList.AddRep | librest/include/router.hpp:10-60 | a route is accepted exactly when it is compatible with every accepted route, and the trie then represents the longer list |
| RouteList.WalkRep | librest/include/router.hpp:21-50 | the walk of add_route fails exactly at the first dynamic segment whose name differs from an accepted one, else adds exactly the route's nodes and names |
| RouteOrder.BuildIff | librest/include/router.hpp:10-60 | a list of routes is accepted as a whole exactly when its routes are pairwise compatible |
| RouteOrder.OrderIrrelevant | librest/include/router.hpp:10-60 | registering the same routes in another order is accepted in the same cases and builds the same trie |
| RouteOrder.CallAccepted | librest/include/router.hpp:12-57 | a further call is accepted exactly if its route starts with a slash and is compatible with every accepted one, and the trie then represents the longer list |
| RouteOrder.CallErrors | librest/include/router.hpp:12-57 | which exception a call throws: a malformed route; else the first segment whose name an accepted route has already named differently; else a second handler for the same method and path |
| RouteOrder.RouteOfParts | librest/include/router.hpp:12-31 | a route string stands for its parts between the slashes, each read as a segment |
| RouteOrder.RegisterRepresents | librest/include/router.hpp:10-60 | after any calls, thrown ones among them, the trie represents exactly the accepted routes |
| RouteDispatch.DispatchIsGreedy | librest/include/router.hpp:64-111 | get_dispatch on the trie is the greedy filter over the plain list: literal segment first, else the dynamic one, stop at an empty segment |
| RouteDispatch.ChildIff | librest/include/router.hpp:86-95 | a child exists exactly when a remaining route continues by that segment |
| RouteRoundTrip.FilledReachesIff | librest/include/router.hpp:77-101 | a filled-in route reaches its own node exactly when no argument equals a literal sibling on the way |
| RouteRoundTrip.DispatchOwnRoute | librest/include/router.hpp:64-111 | then it returns that route's handler and captures the arguments; no assertion fires exactly when no parameter is captured twice |
| RouteRoundTrip.CallsAreServed | librest/include/router.hpp:10-111 | after any calls of add_route the filled-in string of an accepted route that no literal shadows is dispatched to the handler of its call, with its captures |
| RouteRoundTrip.CapturesAre | librest/include/router.hpp:92-95 | with new names the captured parameters are exactly the route's names with the arguments |
| RouteRoundTrip.CapturesKeepFirst | librest/include/router.hpp:92-95 | with any names, a parameter that is there keeps its value, and a new one gets the argument of its first use |
| RouteRoundTrip.ReachableIff | librest/include/router.hpp:82-83 | some request reaches an accepted route exactly when the route has no empty segment |
| RouteRoundTrip.RootRouteIsLost | librest/include/router.hpp:82-83 | a handler registered for "/" is accepted and never found |
| RouteAsserts.AssertsHoldIff | librest/include/router.hpp:92-93 | for any accepted routes the assertions hold for every request that starts without parameters exactly when no route uses a parameter name twice before its first empty segment |
| RouteAsserts.RepeatBehindEmptySegment | librest/include/router.hpp:82-83 | a name repeated only behind an empty segment does no harm |
| RouterClass.Router.constructor | librest/include/router.h:21-32 | a new router is the tree of one empty node |
| RouterClass.Router.Descend | librest/include/router.hpp:29-49 | one turn of the loop: the child that is there, a new one, or the name conflict, on the mutable tree as in the table |
| RouterClass.Router.Walk | librest/include/router.hpp:21-50 | the loop ends at the route's node; a conflict is only possible before the first new node, so a failed walk has changed nothing |
| RouterClass.Router.AddRoute | librest/include/router.hpp:10-60 | throws in the same cases and with the same error as the table, and then leaves the whole trie unchanged |
| RouterClass.Router.GetDispatch | librest/include/router.hpp:64-111 | the pointer walk returns the handler, the parameters and the state of the assertions that the table lookup defines |
| RouterClass.ResumeIsLookup | librest/include/router.hpp:77-101 | the loop from any turn on, with what it has captured, is the rest of the lookup |
| RotatingSink.CalcFilenameInjective | ext/spdlog/include/spdlog/sinks/file_sinks.h:93-101 | different slots have different file names, whatever the base name and the extension |
| RotatingSink.CalcFilenameIsFormatted | ext/spdlog/include/spdlog/sinks/file_sinks.h:93-101 | the name is base name and extension with a dot between them for slot 0, and for the others the formatter's own text for the index between two dots |
| RotatingSink.RotatingFileSink.constructor | ext/spdlog/include/spdlog/sinks/file_sinks.h:61-73 | opens slot 0, keeping what is in it, and starts with its size; other files stay |
| RotatingSink.RotatingFileSink.Rotate | ext/spdlog/include/spdlog/sinks/file_sinks.h:109-130 | from any directory slot i - 1 moves to slot i, missing files included, the last slot is dropped, slot 0 is empty, other files stay |
| RotatingSink.RotatingFileSink.SinkIt | ext/spdlog/include/spdlog/sinks/file_sinks.h:81-90 | one log call on the files is one log call on the slots |
| RotatingLog.RunConserves | ext/spdlog/include/spdlog/sinks/file_sinks.h:81-130 | from any directory: what rotation deleted, then the slots from the last to 0, is what was there, then everything logged |
| RotatingLog.RunHoldsBlocks | ext/spdlog/include/spdlog/sinks/file_sinks.h:81-130 | from an empty directory every file holds whole messages, and the running size is the size of slot 0 |
| RotatingLog.RunKeepsSuffix | ext/spdlog/include/spdlog/sinks/file_sinks.h:81-130 | the messages in the slots, oldest first, are the last messages logged, complete and in order; none is missing before all slots are in use |
| RotatingLog.RunSizes | ext/spdlog/include/spdlog/sinks/file_sinks.h:83-88 | every file has at most max_size bytes or a single message, and neighbouring files together have more than max_size |
| RotatingLog.RetainsEnough | ext/spdlog/include/spdlog/sinks/file_sinks.h:81-130 | a run that has dropped anything retains more than max_size bytes for every two slots |
| RotatingLog.RestartIsInvisible | ext/spdlog/include/spdlog/sinks/file_sinks.h:71-72 | closing and opening the same files goes on as if the sink had never stopped |
| Decimal.NumeralLength | ext/spdlog/include/spdlog/details/format.h:1000-1001 | a number has k digits exactly between two powers of ten |
| DigitCount.CountDigits64IsLength | ext/spdlog/include/spdlog/details/format.h:1002-1008 | for every 64-bit number the branchless count is the decimal length |
| DigitCount.CountDigits32IsLength | ext/spdlog/include/spdlog/details/format.h:1031-1035 | and for every 32-bit number |
| DigitCount.EstimateHolds | ext/spdlog/include/spdlog/details/format.h:1006 | multiplying the bit length by 1233 and shifting by 12 gives the decimal length up to one, for all 64 lengths |
| DigitCount.TableEntry | ext/spdlog/include/spdlog/details/format.cc:568-593 | the two tables hold the powers of ten, and 0 at index 0 |
| DigitCount.CountDigitsLoop | ext/spdlog/include/spdlog/details/format.h:1011-1026 | the loop that divides by 10000 returns the decimal length |
| DigitTable.DigitPair | ext/spdlog/include/spdlog/details/format.cc:561-566 | entries 2i and 2i + 1 of the table are the two digits of i |
| IntFormat.FormatDecimal | ext/spdlog/include/spdlog/details/format.h:1040-1063 | writes exactly the digits of the number in front of the end pointer and leaves the rest of the buffer |
| IntFormat.FitsBuffer | ext/spdlog/include/spdlog/details/format.h:3753-3756 | no 64-bit number has more digits than the buffer has room for besides a sign and a NUL |
| IntFormat.Magnitude | ext/spdlog/include/spdlog/details/format.h:3787-3790 | negating in 64-bit words gives the absolute value, the minimum included |
| IntFormat.FormatInt.Signed | ext/spdlog/include/spdlog/details/format.h:3785-3807 | for the whole signed range the text is the numeral with its sign, inside the buffer |
| IntFormat.SignedNumeralReads | ext/spdlog/include/spdlog/details/format.h:3785-3807 | that text starts with a minus sign exactly for a negative number, and its digits have the absolute value |
| IntFormat.FormatInt.Unsigned | ext/spdlog/include/spdlog/details/format.h:3809-3814 | for the whole unsigned range the text is the numeral |
| IntFormat.FormatInt.CStr | ext/spdlog/include/spdlog/details/format.h:3835-3839 | the text is followed by a NUL inside the buffer |
| NumberParse.ParseNonnegativeInt | ext/spdlog/include/spdlog/details/format.h:4089-4110 | reads the digits in 32-bit words: accepted exactly if the word never gets smaller and ends up at most INT_MAX, with that word as the value |
| NumberParse.NumeralReadsBack | ext/spdlog/include/spdlog/details/format.h:4089-4110 | every number up to INT_MAX is read back from its numeral |
| NumberParse.ReadsCorrectlyIff | ext/spdlog/include/spdlog/details/format.h:4095-4108 | a numeral is read correctly exactly unless its number exceeds 32 bits, every digit passes the wrap test (9w + c reaches the multiples of 2^32 that 10w + c reaches, for the word w so far), and the last word is at most INT_MAX |
| NumberParse.UnnoticedIff | ext/spdlog/include/spdlog/details/format.h:4095-4097 | appending a digit passes the wrap test exactly under that arithmetic condition |
| NumberParse.MisreadTenDigits | ext/spdlog/include/spdlog/details/format.h:4095-4108 | of the numbers below 10^10 exactly those from 4772185884 to 6442450943 and from 9544371768 on are misread |
| NumberParse.MisreadAtEveryLength | ext/spdlog/include/spdlog/details/format.h:4095-4108 | from ten digits on there are misread numbers of every length: 477218588 followed by fours is always read as 477218588 |
| NumberParse.TooBigAccepted | ext/spdlog/include/spdlog/details/format.h:4095-4100 | 5000000000 is accepted as 705032704 |
| IntPadding.ValueOfInBase | ext/spdlog/include/spdlog/details/format.h:3172-3242 | the digits written in base 2, 8 or 16 determine the number |
| IntPadding.DigitsAre | ext/spdlog/include/spdlog/details/format.h:3162-3242 | the digits of each type are the numeral in its base, over its own alphabet, without a leading zero |
| IntPadding.PrefixIs | ext/spdlog/include/spdlog/details/format.h:3149-3233 | sign and base prefix, character by character, for every flag and type |
| IntPadding.PaddedLength | ext/spdlog/include/spdlog/details/format.h:3101-3139 | a field is exactly as wide as asked for, or as prefix and digits need |
| IntPadding.PaddedIs | ext/spdlog/include/spdlog/details/format.h:3101-3139 | for each alignment where the fill goes: behind, in front, half and half, or between prefix and digits |
| IntPadding.PaddingIsFill | ext/spdlog/include/spdlog/details/format.h:3108-3139 | for every alignment, taking the fill characters away leaves prefix and digits |
| IntPadding.WrittenInjective | ext/spdlog/include/spdlog/details/format.h:3144-3248 | two values are never written alike in the same format, for every alignment, if the fill is no digit or sign of theirs |
| IntPadding.ZeroPaddedInjective | ext/spdlog/include/spdlog/details/format.h:3101-3139 | with the '0' flag, too, two values are never written alike in the same format |
| MemoryBuffer.Buffer.Grow | ext/spdlog/include/spdlog/details/format.h:847-866 | the new capacity is half as much again, or what was asked for if that is more, and the contents stay |
| MemoryBuffer.Buffer.GrowBuffer | ext/spdlog/include/spdlog/details/format.h:2706-2711 | room is appended behind the contents, which stay, also across growth |
| MemoryBuffer.Buffer.Append | ext/spdlog/include/spdlog/details/format.h:761-769 | appends the text to the contents |
| MemoryBuffer.FillPadding | ext/spdlog/include/spdlog/details/format.h:3049-3062 | padding on both sides, the smaller half in front |
| MemoryBuffer.LayField | ext/spdlog/include/spdlog/details/format.h:3101-3139 | everything of the field but its digits is written where the specification has it, for each alignment |
| MemoryBuffer.Buffer.PrepareIntBuffer | ext/spdlog/include/spdlog/details/format.h:3067-3140 | the field is appended to the contents, and the pointer is at its last digit |
| MemoryBuffer.WriteDigits | ext/spdlog/include/spdlog/details/format.h:3187-3196 | the backward loop writes exactly the digits in the base |
| MemoryBuffer.Buffer.WriteInt | ext/spdlog/include/spdlog/details/format.h:3144-3248 | appends exactly the padded field of sign, base prefix and digits, or nothing for an unknown type |
| ArgList.TypeOfMakeType | ext/spdlog/include/spdlog/details/format.h:1713-1719 | reading a packed type gives the tag of that argument, and NONE beyond the last one |
| ArgList.ShiftedIn | ext/spdlog/include/spdlog/details/format.h:2436-2439 | shifting in a tag at the bottom moves the others one place up |
| ArgList.ArgAt | ext/spdlog/include/spdlog/details/format.h:1742-1769 | argument i for every i below the count and NONE beyond, for fewer and for more than 16 arguments, reading only the union member in use |
| ArgList.FormatterBase.NextArg | ext/spdlog/include/spdlog/details/format.h:2263-2269 | serves the next index, or the error of switching from manual numbering |
| ArgList.FormatterBase.GetArg | ext/spdlog/include/spdlog/details/format.h:2273-2287 | serves the given index, or the error of switching from automatic numbering |
| ArgList.FormatterBase.DoGetArg | ext/spdlog/include/spdlog/details/format.cc:767-782 | the argument, or the range error |
| ArgList.ServeAllIff | ext/spdlog/include/spdlog/details/format.h:2263-2287 | requests are all served exactly if they are all automatic, numbered 0, 1, 2, ..., and enough, or all manual and in range |
| FormatGrammar.NoMixedNumbering | ext/spdlog/include/spdlog/details/format.h:4379-4401 | in every accepted format string, widths in braces included, the requests are of one kind |
| FormatTemplates.LayoutRead | ext/spdlog/include/spdlog/details/format.h:4190-4368 | fill, alignment, sign, base prefix, '0' flag, width as a number or as an argument in braces, and type, in any combination, are read back from what is written for them |
| FormatTemplates.FieldRead | ext/spdlog/include/spdlog/details/format.h:4184-4376 | a field with any index and layout is read back up to its closing brace, and writes its argument accordingly |
| FormatTemplates.FormatOfRendered | ext/spdlog/include/spdlog/details/format.h:4379-4401 | for every template of texts and fields with any layouts, formatting the string written for it yields its expansion |
| FormatExact.AcceptedIff | ext/spdlog/include/spdlog/details/format.h:4379-4401 | a format string is accepted, writes a text and asks for certain arguments exactly if it is an allowed template written down, up to its end or a NUL, that means just this |
| FormatErrors.RefusedIff | ext/spdlog/include/spdlog/details/format.h:4379-4401 | a format string is refused with an error exactly if behind an allowed template there is a closing brace by itself or a field refused with that error |
| FormatErrors.NameRefused | ext/spdlog/include/spdlog/details/format.h:4137-4181 | a field that starts with a letter or an underscore is refused, with the error for the numbering so far |
| FormatErrors.IndexRefused | ext/spdlog/include/spdlog/details/format.h:4152-4163 | an index whose argument is not served is refused with the numbering error if a brace or colon follows, else as an invalid format |
| FormatErrors.FillRefused | ext/spdlog/include/spdlog/details/format.h:4220-4226 | an opening brace cannot be the fill |
| FormatErrors.SignRefused | ext/spdlog/include/spdlog/details/format.h:4123-4133 | behind any alignment a sign is refused for an unsigned argument |
| FormatErrors.NestedWidthRefused | ext/spdlog/include/spdlog/details/format.h:4277-4307 | behind any flags a width in braces is refused if its argument is not served, it is not closed, or the argument is negative or beyond INT_MAX, each with its error |
| FormatErrors.PrecisionRefused | ext/spdlog/include/spdlog/details/format.h:4312-4363 | behind any flags and width a precision is refused, with its own error if there is something wrong with it |
| FormatErrors.TypeRefused | ext/spdlog/include/spdlog/details/format.h:4366-4374 | behind any flags and width any other character counts as the type; the field must end behind it, and the type must be one of integers |
| FormatShown.AlignmentShows | ext/spdlog/include/spdlog/details/format.h:4199-4236 | for every fill, alignment, width and integer the text that is written, character by character |
| FormatShown.ZeroFlagShows | ext/spdlog/include/spdlog/details/format.h:4264-4275 | the '0' flag in front of any width pads with zeros between sign and digits |
| FormatShown.SignsShow | ext/spdlog/include/spdlog/details/format.h:4240-4254 | what the three sign flags write for every signed argument |
| FormatShown.TypesShow | ext/spdlog/include/spdlog/details/format.h:4256-4367 | sign, base prefix and digits for every type, with and without '#' |
| FormatShown.NestedWidthShows | ext/spdlog/include/spdlog/details/format.h:4277-4309 | a width in braces is the value of the next argument |
| FormatTemplates.FormatOfEscaped | ext/spdlog/include/spdlog/details/format.h:4385-4392 | doubling the braces of a text without NUL and formatting it writes the text |
| Formatter.BasicFormatter.ParseIndex | ext/spdlog/include/spdlog/details/format.h:4152-4163 | the index of a field, or the error that the grammar gives |
| Formatter.BasicFormatter.ParseFillAndAlign | ext/spdlog/include/spdlog/details/format.h:4200-4236 | the loop that looks at the second character and then at the first reads fill and alignment as the grammar does |
| Formatter.BasicFormatter.ParseFieldPrecision | ext/spdlog/include/spdlog/details/format.h:4311-4363 | a precision is refused for integers, with the error that what follows the point deserves |
| Formatter.BasicFormatter.ParseFieldSpec | ext/spdlog/include/spdlog/details/format.h:4191-4366 | the parts of a format one after the other, with the grammar's errors |
| Formatter.BasicFormatter.FormatField | ext/spdlog/include/spdlog/details/format.h:4184-4374 | one field, parsed and written, or the error |
| Formatter.BasicFormatter.Format | ext/spdlog/include/spdlog/details/format.h:4379-4401 | the loop over the format string writes what the grammar says, or stops with its error |
| PatternCompiler.CompilePreserves | ext/spdlog/include/spdlog/details/pattern_formatter_impl.h:456-483 | whatever was compiled before, running the formatters of a pattern shows what the pattern means character by character |
| PatternCompiler.CompileIsInterpret | ext/spdlog/include/spdlog/details/pattern_formatter_impl.h:451-483 | so for every pattern and every message |
| PatternCompiler.PatternFormatter.CompilePattern | ext/spdlog/include/spdlog/details/pattern_formatter_impl.h:456-483 | the loop builds exactly the formatters of the specification |
| PatternCompiler.PatternFormatter.HandleFlag | ext/spdlog/include/spdlog/details/pattern_formatter_impl.h:485-609 | a known flag gives one formatter, an unknown one the two characters |
| PatternCompiler.PatternFormatter.Format | ext/spdlog/include/spdlog/details/pattern_formatter_impl.h:612-629 | appends what all formatters show, and the end of the line |
| PatternCompiler.InterpretConcat | ext/spdlog/include/spdlog/details/pattern_formatter_impl.h:456-483 | patterns that do not end in a bare percent sign can be put together |
| PatternCompiler.InterpretText | ext/spdlog/include/spdlog/details/pattern_formatter_impl.h:472-477 | text without a percent sign is shown as it is |
| PatternCompiler.InterpretFirstFlag | ext/spdlog/include/spdlog/details/pattern_formatter_impl.h:456-609 | behind the text in front of the first percent sign a known flag shows its text and an unknown one itself with the percent sign; a percent sign at the very end shows nothing |
| PatternLaws.FullIsLongIff | ext/spdlog/include/spdlog/details/pattern_formatter_impl.h:399-443 | `%+` equals its documented long pattern exactly when neither the year nor the millisecond part of the time is negative |
| PatternLaws.SinceEpoch | ext/spdlog/include/spdlog/details/pattern_formatter_impl.h:406-407 | which it is for every time since the epoch |
| PatternLaws.TimeOfDay | ext/spdlog/include/spdlog/details/pattern_formatter_impl.h:282-298 | `%R` is `%H:%M`, and `%T` and `%X` are `%H:%M:%S` |
| PatternDates.ClockAndDate | ext/spdlog/include/spdlog/details/pattern_formatter_impl.h:157-281 | `%r` is `%I:%M:%S %p`, and `%D` and `%x` are `%m/%d/%C`, the two-digit year being `%C` here |
| PatternDates.ClockIsInjective | ext/spdlog/include/spdlog/details/pattern_formatter_impl.h:273-280 | `%r` shows two times of day alike only if they agree to the second |
| PatternDates.TwelveHourIff | ext/spdlog/include/spdlog/details/pattern_formatter_impl.h:203-210 | `%I` shows an hour from 1 to 12 exactly outside the first hour of the day, which it shows as 00 |
| PatternDates.CtimeIff | ext/spdlog/include/spdlog/details/pattern_formatter_impl.h:135-143 | `%c` is `%a %b %d %T %Y` exactly from the tenth of a month on |
| PatternDates.FractionsAgree | ext/spdlog/include/spdlog/details/pattern_formatter_impl.h:230-261 | since the epoch the nanoseconds of `%F` start with the microseconds of `%f`, and those with the milliseconds of `%e` |
| PatternWords.OffsetIsIsoIff | ext/spdlog/include/spdlog/details/pattern_formatter_impl.h:303-325 | `%z` is the ISO 8601 offset exactly if the offset is not negative, or is ten or more whole hours to the west |
| PatternWords.HalvesAre | ext/spdlog/include/spdlog/details/pattern_formatter_impl.h:67-70 | `%p` is AM before noon and PM from noon on |
| PatternWords.LevelsAre | ext/spdlog/include/spdlog/common.h:67 | the names of the levels |
| PatternWords.ShortLevels | ext/spdlog/include/spdlog/common.h:67-69 | a level's short name is the capital first letter of its name, but M for emerg |
| PatternWords.LevelsDiffer | ext/spdlog/include/spdlog/common.h:67-69 | no two levels share a name or a short name |
| PatternWords.ShortNames | ext/spdlog/include/spdlog/details/pattern_formatter_impl.h:78-130 | a short day name is the first three letters of the full one, a short month name begins the full one and has three letters, but four for June, July and September |
| HttpParser.HttpRequest.ReadHeaders | libhttp-cpp/src/http_protocol_one_one.cpp:66-96 | the loop over the lines fills the maps as the specification does, or throws when it does |
| HttpParser.HttpRequest.ParseRequest | libhttp-cpp/src/http_protocol_one_one.cpp:27-118 | the status and all fields of the structure are those of the specification |
| HttpParser.HttpRequest.ToGenericHeader | libhttp-cpp/src/http_structure.cpp:14-22 | the merged map has the names of all three, and the general header's value wins over the request header's, and that over the entity header's |
| HttpOutcomes.RequestLineIff | libhttp-cpp/src/http_protocol_one_one.cpp:34-61 | a first line is accepted exactly if, less one white-space character at its end, it is one of the eight methods, the URI and the version, free of white space, with one white-space character between neighbours |
| HttpOutcomes.HeaderLineIff | libhttp-cpp/src/http_protocol_one_one.cpp:66-96 | a line is a header exactly if it has a colon: the name is what stands before the first one, the value begins behind the character that follows it, and a carriage return at the end does not count |
| HttpOutcomes.OutcomeIff | libhttp-cpp/src/http_protocol_one_one.cpp:27-118 | for every input which of the four results it gives: empty, refused request line, accepted with the headers its lines say, or ended by an exception |
| HttpLaws.ParseRequestText | libhttp-cpp/src/http_protocol_one_one.cpp:27-118 | every request without a body that section 5 of RFC 2616 allows, with `Name: value` headers, is recovered: method, URI, version and all headers |
| HttpLaws.ParseHeadersIff | libhttp-cpp/src/http_protocol_one_one.cpp:66-78 | for any input the loop throws exactly if a header line ends at its first colon, else adds what the lines say |
| HttpLaws.BodyIs | libhttp-cpp/src/http_protocol_one_one.cpp:66-102 | the body of any accepted request is what follows its first two adjacent line feeds, and empty without them |
| HttpLaws.BodyIff | libhttp-cpp/src/http_protocol_one_one.cpp:66-102 | so a request has a body exactly if something follows two adjacent line feeds |
| HttpLaws.NoBody | libhttp-cpp/src/http_protocol_one_one.cpp:66-102 | a message whose line feeds all follow a carriage return never has a body |
| HttpLaws.MergeIsFirstWins | libhttp-cpp/src/http_structure.cpp:14-22 | sorting headers into three maps and merging them is one map in which the first value for a name stays |
| HttpLaws.GenericOfFields | libhttp-cpp/src/http_structure.cpp:14-22 | for any header lines, the value under a name in the merged map is that of the first line with this name, and there is none without such a line |

## Left out

- Memory orders: the queue is modelled with sequentially consistent steps.
- Threads that fall half a word behind while others go on: there the wrapped positions of the queue become ambiguous.
- Exceptions in the worker thread, `throw_if_bad_worker`, sleeping, yielding, the clock and the warm-up callback.
- Shutdown under `discard_log_msg`: the terminate message itself may be dropped, so the claims about returning are about runs in which it was pushed.
- `compare_exchange_weak` may fail spuriously for ever; the progress bounds count those failures.
- File operations that fail, write buffering and the daily sink; overflow of the running size of the rotating sink.
- Handlers of routes are values without behaviour; parameters are kept as strings.
- AsyncWorker.AsyncLogHelper.PushMsg: the object runs one thread at a time, so the worker's turns come only while the caller sleeps, one message in each.
- MemoryBuffer.Buffer.PrepareIntBuffer: does not model the precision branch, which no integer format string reaches.
- MemoryBuffer.Buffer.WriteInt: 32-bit values are written through the 64-bit word, which gives the same digits.
- FormatGrammar.NoMixedNumbering: arguments are of the four integer types; strings, floating-point numbers, custom types and named arguments are not part of this model.
- ArgList.FormatterBase.DoGetArg: named arguments, and with them the step from a name to its value, are not part of this model.
- Formatter.BasicFormatter.FormatField: only integer arguments are formatted, as in the grammar.
- Formatter.BasicFormatter.Format: only integer arguments are formatted, as in the grammar.
- PatternCompiler.PatternFormatter.Format: `localtime` is a parameter, and a formatting exception cannot occur in the model.
- Allocation limits: buffers, queues and argument counts do not overflow their integer types.
- HttpLaws.ParseRequestText: the URI and the version must not contain white space, which would make more than three tokens.
- HTTP/1.0, chunked bodies, responses, virtual hosts, file resources and directory listings.
- The message queue sockets, polling and process startup, and the plug-in loader.
