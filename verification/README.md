# A verified model of zh_async

zh_async is a C++20 coroutine I/O library.  This project models its parts that carry state and
makes precise what they promise: the timer tree and the event loop's drain, the JSON printer
and parser, the awaiters that move control between coroutines, `when_all`, the bounded queue
and the mutex on a futex, the thread pool, the buffered stream, and string splitting.  The
statements are about all inputs, all interleavings and all choices of the environment, within
the conditions that the rows state and the limits listed at the end.

`dafny verify dfyconfig.toml` checks all files.

## How it is built

- `Wrappers.dfy`: an option type and one fact about strings.
- `RbLayout.dfy`, `RbTree.dfy`, `TimerDrain.dfy`, `TimerQueue.dfy`: the intrusive red-black tree
  and the drain of the timers, on values and on the tree.  `RbTree` is the
  pointer code on real nodes.  It keeps a ghost snapshot of the linked nodes and a ghost layout
  that gives each node its in-order position and each nil link the black count of its path;
  `RbLayout` proves, one snapshot at a time, what rotations, recolouring, insertion and removal
  do to them.  `Weak` is what every operation keeps (links in both directions, order, a black
  root, no red node below a red one, true counts), `Balanced` says that all paths carry equally
  many black nodes.  `InOrderIs` and `PathBlacksAre` tie the layout to functions that read the
  pointers alone.
- `JsonValue.dfy`, `Utf8.dfy`, `JsonScanner.dfy`, `JsonEncoder.dfy`, `JsonParser.dfy`: printer,
  string scanner and parser as methods, each proved against a function.  `JsonRoundTrip.dfy`,
  `JsonSurrogates.dfy`, `JsonReading.dfy` and `JsonStrict.dfy` are the theorems about those
  functions: the round trip through texts with any blanks and commas (`Doc`), surrogates, what is
  skipped and which error comes where, and the printed text judged by a strict recogniser of the
  JSON grammar.  A string holds one character per byte.
- `TaskSemantics.dfy`, `TaskLaws.dfy`, `Task.dfy`: a coroutine body is a finite tree of suspension points.  `Eval`
  runs it by recursion; `Step` is a machine over a chain of activations; the classes in
  `Task.dfy` are the frames and awaiters, linked by their fields, whose transfers of control
  follow that machine.  `Execution` stands for what the language does between them: it resumes
  the coroutine that a suspension names and destroys temporaries at the end of an expression.
- `WhenAll.dfy`: the countdown join, with children that finish whenever the environment likes.
- `RingQueue.dfy`, `QueueProtocol.dfy`, `QueueProgress.dfy`, `QueueWrap.dfy`, `Queue.dfy` and
  `MutexProtocol.dfy`, `MutexProgress.dfy`, `Mutex.dfy` and `PoolProtocol.dfy`, `PoolReuse.dfy`,
  `ThreadPool.dfy`: protocols as state machines over any number of tasks, with invariants over all
  runs, what becomes of every operation begun, and the objects whose methods make exactly those
  steps.
- `RawStream.dfy`, `BufferedStream.dfy`, `StreamLines.dfy`: a buffered stream on a raw stream that
  reads and writes any part of what it is asked for and may fail at any time.  Its answers are
  an input: what a flush does is a function of them (`FlushOf`), and a call fails exactly if one
  of them is a failure.
- `SplitString.dfy`: the splitting iterator and `collect()`.

## Where the code differs from what one might expect

- Erasing a timer runs the repair made for insertions.  Order, links, a black root and the red
  rule survive; equal black counts survive exactly if the erased node is red or the root.
  `DrainLosesBalance` inserts four timers and loses them by firing the front once or twice.
- A JSON dictionary keeps the first of several entries with the same key, so printing and parsing
  gives back the sorted dictionary of first entries (`Norm`), which is the value itself
  exactly when its keys are ascending.  The parser skips commas wherever they stand, counts a
  character that is no hex digit as 0, and ignores what follows the digits of a number
  (`StollIgnores`, `IntegerRead`).
- The printer escapes a NUL as `\0`, which is no JSON: printed text is JSON exactly if no string in
  the value holds one (`PrintIsJson`).
- After the escape of a high surrogate the scanner expects four more hex digits at once, without
  another backslash and `u` (`PairDecodes`); it misreads the standard form of a pair
  (section 7 of RFC 8259, `StandardPairMisread`).
- A high surrogate and four digits of no surrogate behind it are no error, but the high one leaves
  no trace (`HighDropped`): the literal `"\uD83D0041"` is read as `A`
  (`DroppedLiteral`).  A low surrogate without a high one and a second high one are errors.
- When writing stops early, `flush` keeps the whole buffer although its first bytes have been written,
  and a later flush writes them again.  With two or more bytes buffered a raw stream that takes one
  byte and then fails brings this about (`FirstByteTwice`); with at most one, none can
  (`ConservedIf`).
- Splitting at an empty delimiter never ends (`SplitStrings.Collect`).
- A wait that spans a positive multiple of 2^32 notifications may sleep through them
  (`CompareSleeps`).  A queue with room for at most one item does not mind; every larger one
  has a run that loses a wakeup (`SafeCapacities`).

## Model

| member | source | states |
|---|---|---|
| `RbTree.TimerTree.RotateLeft` | utils/rbtree.hpp:64-80 | the left rotation writes exactly the links that turn the snapshot into the rotated one; no null link is followed |
| `RbTree.TimerTree.RotateRight` | utils/rbtree.hpp:82-98 | the mirror image |
| `RbLayout.TurnLinked` | utils/rbtree.hpp:64-80 | after a left rotation all links agree in both directions and the in-order sequence is the same |
| `RbLayout.UnturnLinked` | utils/rbtree.hpp:82-98 | the same for a right rotation |
| `RbLayout.TurnCounted` | utils/rbtree.hpp:64-80 | a left rotation that exchanges the colours of the two nodes, or turns two red ones, keeps the black count of every path |
| `RbLayout.UnturnCounted` | utils/rbtree.hpp:82-98 | the same for a right rotation |
| `RbLayout.GrandparentExists` | utils/rbtree.hpp:103-106 | where the loop body runs, parent and grandparent exist and the grandparent is black, so the loop dereferences no null |
| `RbLayout.RecolourStep` | utils/rbtree.hpp:109-113 | recolouring moves the one violation up to the grandparent and keeps links, order and all path counts |
| `RbLayout.InnerLeftStep` | utils/rbtree.hpp:115-119 | the rotation at the parent turns an inner grandchild into an outer one and keeps everything else |
| `RbLayout.OuterRightStep` | utils/rbtree.hpp:120-122 | the rotation at the grandparent with the colour swap removes the violation and keeps links, order and all path counts |
| `RbLayout.OuterLeftStep` | utils/rbtree.hpp:137-139 | the mirror image |
| `RbLayout.BlackenRoot` | utils/rbtree.hpp:143 | a black root adds one to every path alike and completes the repair |
| `RbTree.TimerTree.RepairLeft` | utils/rbtree.hpp:107-123 | one turn of the loop with the parent on the left: still at most one violation, same in-order sequence, same path counts, and a measure that bounds the loop goes down |
| `RbTree.TimerTree.RepairRight` | utils/rbtree.hpp:124-141 | the mirror image |
| `RbTree.TimerTree.FixViolation` | utils/rbtree.hpp:100-144 | the loop ends and leaves a tree with no violation, the same in-order sequence and the same path counts |
| `RbTree.TimerTree.FindSlot` | utils/rbtree.hpp:151-160 | the descent ends at the one nil link behind all timers that are due no later and before all others |
| `RbTree.TimerTree.Insert` | utils/rbtree.hpp:146-170 | the node set grows by exactly the new node, which stands after every timer due no later and before all others; the invariant holds again, and equal black counts stay equal |
| `RbLayout.AttachStep` | utils/rbtree.hpp:161-168 | hanging a red leaf at its nil link gives a linked, ordered, counted tree with at most one violation, at the leaf |
| `RbTree.TimerTree.Erase` | utils/rbtree.hpp:202-220 | for a node with at most one child: exactly that node leaves the in-order sequence and the invariant holds again; equal black counts stay equal if and only if the node was red or the root |
| `RbLayout.SpliceStep` | utils/rbtree.hpp:207-219 | taking out a node with at most one child keeps links, order and counts, and leaves at most one violation, at the child, and only if the node was black |
| `RbLayout.SpliceBalanced` | utils/rbtree.hpp:217-219 | after the splice the black counts are equal if and only if the node was red or the root |
| `TimerQueue.DrainLosesBalance` | utils/rbtree.hpp:146-220 | any four timers inserted into an empty tree, and the front erased once or twice, leave a valid tree with unequal black counts |
| `RbTree.TimerTree.Front` | utils/rbtree.hpp:222-228 | the leftmost node is the first of the in-order sequence and has no left child |
| `RbLayout.InOrderIs` | utils/rbtree.hpp:238-246 | the recursive traversal of the pointers visits exactly the nodes of the layout's sequence, in its order |
| `RbLayout.PathBlacksAre` | utils/rbtree.hpp:24-32 | the layout's counts are the numbers of black nodes on the root-to-nil paths, left to right |
| `RbLayout.LogarithmicHeight` | generic/generic_io.hpp:50-54 | in a balanced tree of n nodes 2^bh <= n + 1 and the height is at most 2 bh, where bh is the common black count |
| `RbLayout.HeightByBlacks` | utils/rbtree.hpp:100-144 | in every valid tree, balanced or not, the height is at most twice the largest black count of a path |
| `TimerQueue.ScheduleAll` | generic/generic_io.hpp:56-85 | any timers inserted into an empty tree stand in stable order of their expiry times, in a tree of logarithmic height |
| `TimerQueue.InsertStably` | generic/generic_io.hpp:56-57 | going in after all timers due no later keeps the order the stable sort of the insertions |
| `TimerQueue.GenericIOContext.AwaitSuspend` | generic/generic_io.hpp:104-110 | stores the expiry and inserts the node after all timers due no later |
| `TimerQueue.GenericIOContext.Fire` | generic/generic_io.cpp:25-27 | the front timer leaves the tree, marked as not cancelled, and its coroutine is resumed |
| `TimerQueue.GenericIOContext.Look` | generic/generic_io.cpp:17-31 | one look at the clock: the front timer is fired if it is due and its coroutine then starts any timers; otherwise nothing changes and its distance is returned |
| `TimerQueue.GenericIOContext.RunDuration` | generic/generic_io.cpp:10-36 | the loop ends, whatever timers the resumed coroutines start, if they are finitely many; it resumes the timers that the drain on values fires, in that order, and leaves the others; no timer is resumed before its expiry, lost or resumed twice; it returns nothing if and only if no timer is left, else a positive time, the earliest remaining expiry minus the last clock reading |
| `TimerDrain.DrainSound` | generic/generic_io.cpp:13-35 | in the drain each timer fired was due at the look that fired it, none left is due at the last look, those left are in order, and what was pending or started is what was fired and what is left |
| `TimerDrain.DrainInOrder` | generic/generic_io.cpp:13-35 | if the coroutines start nothing, the timers fired are the first ones in tree order |
| `JsonEncoding.JsonEncoder.PutString` | utils/reflect.hpp:271-295 | appends the quoted string with every character escaped as `Escape` says |
| `JsonEncoding.JsonEncoder.PutValue` | utils/reflect.hpp:700-757 | appends the text of the value, through all nested arrays and dictionaries; with `RoundTrip` this text determines the value |
| `JsonEncoding.JsonEncoder.PutItems` | utils/reflect.hpp:700-717 | the loop over array elements with the comma flag; with `PrintJoined` its text is the elements' texts joined by single commas |
| `JsonEncoding.JsonEncoder.PutEntries` | utils/reflect.hpp:739-757 | the loop over dictionary entries with the comma flag |
| `JsonStrict.PrintJoined` | utils/reflect.hpp:700-757 | brackets around the texts of the elements or entries joined by single commas, none before the first or after the last |
| `JsonStrict.PrintStrict` | utils/reflect.hpp:700-757 | a strict recogniser of JSON without blanks accepts the printed text of a value and leaves what follows if no string in it holds a NUL, and rejects it else |
| `JsonStrict.PrintIsJson` | utils/reflect.hpp:271-295 | the whole printed text is one JSON text if and only if no string in the value holds a NUL |
| `JsonStrict.EscapeIs` | utils/reflect.hpp:275-291 | which characters are escaped, in the short and in the hex form, and that the hex form spells the character in lower-case digits |
| `JsonStrict.StrictDecimal` | utils/reflect.hpp:297-300 | the text of an integer has a minus sign exactly if it is negative, and no leading zero |
| `JsonScanner.EscapesPushScalars` | utils/reflect.hpp:425-467 | a completed hex escape fails exactly if it is a low surrogate without a high one or a second high one; else it remembers a first high surrogate or pushes the encoding of a scalar, and one remembered before a number that is no surrogate is dropped; the last error branch is never taken |
| `JsonScanner.EncodeScalar` | utils/reflect.hpp:446-462 | the pushed bytes are the complete, shortest UTF-8 encoding of the scalar |
| `JsonScanner.ScanWellFormed` | utils/reflect.hpp:368-476 | from ASCII text every accepted string is well-formed UTF-8 (section 4 of RFC 3629) |
| `JsonScanner.ScanSuffix` | utils/reflect.hpp:376-475 | a finished scan leaves a proper suffix of its input |
| `JsonScanner.CompleteEscape` | utils/reflect.hpp:425-467 | the code after the fourth hex digit does what the scanner machine says |
| `JsonScanner.ScanString` | utils/reflect.hpp:366-476 | the loop with its phases computes the scan |
| `JsonSurrogates.PairDecodes` | utils/reflect.hpp:425-440 | a high surrogate's escape followed at once by four digits of a low one pushes the encoding of the scalar that the pair stands for |
| `JsonSurrogates.StandardPairMisread` | utils/reflect.hpp:425-430 | a second escape after a high surrogate is misread: backslash and `u` count as digits, and a character below U+0100 is pushed |
| `JsonSurrogates.AfterHigh` | utils/reflect.hpp:424-467 | the four digits after a high surrogate push a pair's scalar if and only if they spell a low surrogate; another high one is an error, and any other number is pushed alone |
| `JsonSurrogates.HighDropped` | utils/reflect.hpp:424-467 | the escape of a high surrogate followed by four digits of no surrogate reads, with all text behind it, like the escape of the second number alone |
| `JsonSurrogates.HexForgotten` | utils/reflect.hpp:376-417 | between escapes the numbers of the last one have no effect on the rest of the scan |
| `JsonSurrogates.DroppedLiteral` | utils/reflect.hpp:424-467 | a whole literal with a dropped high surrogate, parsed without an error |
| `JsonParsing.JsonParse` | utils/reflect.hpp:356-601 | terminates on every input with the parse and the remaining text; started with a clear error code, it returns null if and only if the code is set; with `DocRead`, `SkippedAre` and the lemmas on errors this parse is the value of the text |
| `JsonParsing.ParseScalarAt` | utils/reflect.hpp:549-599 | numbers, words and strings: value and remaining text, or the error |
| `JsonParsing.ParseArrayLoop` | utils/reflect.hpp:524-548 | the loop over array elements computes the parse of the array |
| `JsonParsing.ParseDictLoop` | utils/reflect.hpp:477-523 | the loop over dictionary entries computes the parse of the dictionary |
| `JsonParsing.ParseEntryAt` | utils/reflect.hpp:494-519 | key, colon and value of one entry, with their errors |
| `JsonParsing.ParseSound` | utils/reflect.hpp:356-601 | a successful parse leaves a proper suffix of its input, a failing one a real error code |
| `JsonParsing.ParseUtf8` | utils/reflect.hpp:356-601 | every string and key parsed from ASCII text is well-formed UTF-8 |
| `JsonReading.SkippedAre` | utils/reflect.hpp:359-364 | a character before any text makes no difference to the parse if and only if it is a space, a tab, a line feed, a carriage return or a NUL |
| `JsonRoundTrips.BlanksSkipped` | utils/reflect.hpp:481-486 | blanks before a value, an array element, a dictionary entry or a closing bracket make no difference |
| `JsonRoundTrips.GapSkipped` | utils/reflect.hpp:487-493 | nor do any commas and blanks between elements and entries |
| `JsonRoundTrips.KeyAt` | utils/reflect.hpp:505-514 | blanks before the colon make no difference |
| `JsonReading.NumberRead` | utils/reflect.hpp:549-577 | any digits behind any sign, leading zeros included, give their value if it fits into 64 bits and else an error, whatever text without a point follows them |
| `JsonReading.RealRead` | utils/reflect.hpp:555-563 | a number with a point is what the library call makes of the text up to the next comma or closing bracket, or an error if it throws |
| `JsonReading.ShortEscapes` | utils/reflect.hpp:386-413 | what each letter after a backslash stands for |
| `JsonReading.HexDigits` | utils/reflect.hpp:415-423 | hex digits of both cases count and nothing else does |
| `JsonReading.EndsEarly` | utils/reflect.hpp:360-363 | where a text ends in blanks too early the error is an unexpected end |
| `JsonReading.WrongStart` | utils/reflect.hpp:597-600 | a character that starts no value is an unexpected token |
| `JsonReading.WrongKey` | utils/reflect.hpp:499-504 | a key that is not a string is its own error |
| `JsonReading.WrongColon` | utils/reflect.hpp:505-514 | after a key anything but a colon is an unexpected token, and nothing an unexpected end |
| `JsonReading.Unterminated` | utils/reflect.hpp:377-380 | a string without its closing quote is its own error |
| `JsonValues.EmplaceKeepsOrder` | utils/reflect.hpp:520 | adding to the dictionary keeps its keys ascending and never changes an entry that is there |
| `JsonValues.LessIs` | utils/reflect.hpp:479 | the key order is the lexicographic order of the bytes |
| `JsonRoundTrips.ScanEscaped` | utils/reflect.hpp:271-295 | scanning undoes escaping, for every byte string and every escape |
| `JsonRoundTrips.StollIgnores` | utils/reflect.hpp:565-572 | what follows the digits of a number makes no difference to its value or to whether it is out of range |
| `JsonRoundTrips.StollDecimal` | utils/reflect.hpp:297-300 | the decimal text of every 64-bit integer is read back as that integer, whatever stands behind its digits |
| `JsonRoundTrips.IntegerRead` | utils/reflect.hpp:550-574 | an integer is read up to the next comma or closing bracket, and text without a point between its digits and that place is lost |
| `JsonRoundTrips.IntegerRoundTrip` | utils/reflect.hpp:550-574 | a printed integer is read back with what follows left untouched if and only if that is empty or starts with a comma or a closing bracket |
| `JsonRoundTrips.DocRead` | utils/reflect.hpp:356-601 | every text of a printable value, with any of the five blanks and any commas between elements and any blanks around colons, is read as that value with sorted dictionaries; an integer needs a comma or closing bracket behind it, and the blanks before that go with it |
| `JsonRoundTrips.PlainText` | utils/reflect.hpp:700-757 | the printed text is the one of these without blanks and with single commas |
| `JsonRoundTrips.RoundTrip` | utils/reflect.hpp:356-601 | for every printable value and every continuation, which after an integer is empty or starts with a comma or a closing bracket, parsing the printed text returns the value with sorted dictionaries and leaves exactly the continuation |
| `JsonRoundTrips.RoundTripExact` | utils/reflect.hpp:356-601 | that condition on the continuation is necessary too, and the value itself is returned if and only if the keys of all its dictionaries are also ascending |
| `JsonRoundTrips.NormFinds` | utils/reflect.hpp:479-523 | sorting a dictionary keeps the first entry of every key and loses none |
| `JsonRoundTrips.PrintInjective` | utils/reflect.hpp:700-757 | values with the same text are the same up to sorting |
| `JsonRoundTrips.EncodeThenParse` | utils/reflect.hpp:303-305 | the encoder's output, parsed by the parser, gives the sorted value and leaves nothing; it is the value itself if and only if its keys are ascending |
| `TaskSemantics.StepRemaining` | awaiter/task.hpp:518-529 | one step of the machine does exactly what the recursive evaluator says is to be done next |
| `TaskSemantics.StepDescends` | awaiter/task.hpp:62-69 | every step brings the run closer to its end |
| `TaskSemantics.MachineRefinesEval` | awaiter/task.hpp:62-93 | the run of the machine ends with the evaluator's result and its visible effects in order, for every tree of tasks |
| `TaskSemantics.FirstErrorIs` | awaiter/task.hpp:587-604 | of a list of results the error of least index wins; there is none exactly if all are values |
| `TaskLaws.TryLaw` | awaiter/details/value_awaiter.hpp:52-68 | awaiting a child and its value: an error makes the child's run the whole run, whatever comes next; a value makes it a plain await |
| `TaskLaws.CheckAllLaw` | awaiter/task.hpp:587-604 | awaiting a list of results is awaiting them one after the other |
| `TaskLaws.ErrorEscapesRun` | awaiter/task.hpp:62-93 | in the machine an error falls through any number of callers unchanged, and none of them does anything more |
| `TaskLaws.AwaitLaw` | awaiter/task.hpp:62-69 | awaiting a task and returning its result is running the task |
| `Tasks.Execution.Call` | awaiter/task.hpp:62-69 | awaiting a task creates its frame and owning awaiter, stores the caller and transfers to the callee |
| `Tasks.Execution.Finish` | awaiter/task.hpp:163-172 | `co_return` stores the result in the awaiter, and the final awaiter transfers to the caller |
| `Tasks.Execution.AwaitTransform` | awaiter/task.hpp:587-604 | the first error is stored as the coroutine's own result and the awaiter leads to the caller; without one the awaiter is ready with the values |
| `Tasks.Execution.Propagate` | awaiter/details/value_awaiter.hpp:52-68 | an awaited error abandons the frame and resumes the caller with that error; a value goes on |
| `Tasks.Execution.Release` | awaiter/task.hpp:310-317 | at the end of the awaiting expression the child's frame and all that it still owns are destroyed, each once |
| `Tasks.Execution.Destroy` | awaiter/task.hpp:314-316 | destroying a frame destroys exactly the chain of frames it owns |
| `Tasks.Execution.Dispatch` | awaiter/task.hpp:62-93 | resuming the current coroutine makes exactly one step of the machine, and frames and awaiters stay linked as the chain says |
| `Tasks.CoAwait` | awaiter/task.hpp:62-93 | a run resumes the root's caller exactly once, as its last transfer, with the evaluator's result and effects; every frame that was created has been destroyed exactly once |
| `WhenAlls.UnfinishedZero` | awaiter/when_all.hpp:87-88 | the count is zero exactly when every child is done |
| `WhenAlls.UnfinishedStep` | awaiter/when_all.hpp:87 | starting a child leaves the count, finishing one lowers it by one |
| `WhenAlls.WhenAllFrame.AwaitSuspend` | awaiter/when_all.hpp:46-56 | starts all children but the last, whatever finishes meanwhile, without resuming the parent, and hands over to the last; with no children to the parent |
| `WhenAlls.WhenAllFrame.Finish` | awaiter/when_all.hpp:80-91 | fills the child's own, still empty slot, counts down, and names the parent exactly if the count is zero |
| `WhenAlls.WhenAllFrame.Settle` | awaiter/when_all.hpp:52-55 | in every order of completion the parent has been resumed once if all children are done and not at all before |
| `WhenAlls.WhenAllFrame.Collect` | awaiter/when_all.hpp:186-195 | each slot is moved out once, in order |
| `WhenAlls.WhenAll` | awaiter/when_all.hpp:161-197 | for every order of completion the parent is resumed exactly once, after all children, and position i holds the value of child i |
| `RingQueues.WriteAppends` | utils/ring_queue.hpp:62-70 | a write that does not meet the read position appends |
| `RingQueues.ReadDrops` | utils/ring_queue.hpp:47-54 | a read takes the oldest value |
| `RingQueues.EmptyAndFull` | utils/ring_queue.hpp:38-45 | equal positions mean empty, adjacent ones mean that all slots but one are used |
| `RingQueues.RingQueue.Empty` | utils/ring_queue.hpp:38-40 | true exactly if nothing is queued |
| `RingQueues.RingQueue.Full` | utils/ring_queue.hpp:42-45 | true exactly if the capacity is used up |
| `RingQueues.RingQueue.Push` | utils/ring_queue.hpp:62-70 | appends the value and says so exactly if there is room |
| `RingQueues.RingQueue.Pop` | utils/ring_queue.hpp:47-54 | takes out the oldest value exactly if there is one |
| `QueueProtocol.ApplyBase` | generic/queue.hpp:43-63 | every step of a task or of the kernel keeps order and capacity, and that each waiting task read its word when there was nothing to do |
| `QueueProtocol.ApplyCovered` | generic/queue.hpp:43-63 | every step keeps the sleepers covered, unless the word comes back to one that a task with something to do waits for |
| `QueueProtocol.RunIsFifo` | generic/queue.hpp:43-63 | in every run of any length and interleaving the popped values followed by the queued ones are the pushed ones in order, and the capacity is never exceeded |
| `QueueProtocol.NoLostWakeup` | generic/queue.hpp:43-63 | while a consumer sleeps there are at most as many items as wakes under way for consumers and consumers about to look at the queue, and free slots for producers likewise, whatever waits are cancelled; for capacity up to 1 in every run, for larger ones as long as no wait has spanned a positive multiple of 2^32 notifications |
| `QueueProtocol.ShortWaits` | generic/condition_variable.hpp:42-49 | that is so in any run, however long, whose single waits span fewer than 2^32 notifications |
| `QueueProtocol.QuietMeansDone` | generic/queue.hpp:43-63 | when nothing is under way, under the same condition, a sleeping consumer means an empty queue and a sleeping producer a full one, never both with some capacity |
| `QueueProtocol.SuccessCovered` | generic/condition_variable.hpp:51-55 | a notification covers the work that its push or pop makes |
| `QueueProtocol.CompareSleeps` | platform/futex.hpp:79-95 | the kernel puts a task to sleep if and only if the number of notifications since it read the word is a multiple of 2^32 |
| `QueueProtocol.SmallWords` | generic/condition_variable.hpp:42-49 | with room for at most one item, a task that waits for the current word has nothing to do, however often the word has wrapped around |
| `QueueWrap.WrapAroundLosesWakeup` | generic/condition_variable.hpp:42-49 | for every capacity from 2 on, a run from the start at whose end nothing is under way and a consumer sleeps beside two items |
| `QueueWrap.SafeCapacities` | generic/queue.hpp:43-63 | no run at all loses a wakeup if and only if the capacity is at most 1 |
| `QueueProgress.RecheckTries` | generic/condition_variable.hpp:43-46 | a task whose wait is over tries again if and only if the number of notifications since it read the word is no multiple of 2^32, and else waits again |
| `QueueProgress.StepOp` | generic/queue.hpp:43-63 | a task stays in its push or pop until a step does it, with exactly that value, or cancels it |
| `QueueProgress.StepValues` | generic/queue.hpp:43-63 | a try does the operation if and only if there is room or an item; no other step changes any value |
| `QueueProgress.RunConserves` | generic/queue.hpp:43-63 | in every run and for every value the pushes and pops begun are those done, those cancelled and those that tasks are still in |
| `QueueProgress.RunEnds` | generic/queue.hpp:43-63 | only a bounded number of steps can happen while no operation is begun and no sleep ends for no reason |
| `QueueProgress.EndMeansDone` | generic/queue.hpp:43-63 | where no such step is left, every task is idle or sleeps with nothing to do, under the condition of `NoLostWakeup` |
| `Queues.Queue.Push` | generic/queue.hpp:43-50 | one run of `push` up to its next await is the protocol's action |
| `Queues.Queue.Pop` | generic/queue.hpp:52-63 | one run of `pop` up to its next await is the protocol's action and returns what is popped |
| `Queues.Queue.Wait` | generic/condition_variable.hpp:42-46 | reads the word and submits the masked wait for it |
| `Queues.Queue.Recheck` | generic/condition_variable.hpp:45-48 | after the wait: again while the word is the same, else back to the caller's loop |
| `Queues.Queue.NotifyOne` | generic/condition_variable.hpp:51-55 | increments the 32-bit word, which wraps around, and leaves a wake with the mask under way |
| `Queues.Queue.Compare` | platform/futex.hpp:79-95 | the kernel puts the task to sleep exactly if the word is still the expected one |
| `Queues.Queue.Wake` | platform/futex.hpp:117-130 | a wake takes any one sleeper with its mask, or nobody if none sleeps |
| `Queues.Queue.Cancel` | platform/futex.hpp:83-87 | a cancelled wait ends the task's push or pop and changes nothing else |
| `MutexProtocol.ApplyInv` | generic/mutex.hpp:15-36 | every step, cancellation included, keeps the flag right and sleepers attended to |
| `MutexProtocol.MutualExclusion` | generic/mutex.hpp:15-36 | in every interleaving at most one task holds the mutex, and the flag is set exactly while one does |
| `MutexProtocol.NoLostWakeup` | generic/mutex.hpp:21-36 | while a task sleeps the mutex is held, a wake is under way or about to be sent, or a task is about to try again |
| `MutexProtocol.QuietMeansIdle` | generic/mutex.hpp:21-36 | when nobody is active and no wake is under way, nobody sleeps |
| `MutexProgress.StepTask` | generic/mutex.hpp:15-36 | a task in `lock` stays in it until it holds the mutex or is cancelled; nobody else gets the mutex but by `try_lock` |
| `MutexProgress.TakesIfFree` | generic/mutex.hpp:15-30 | a try takes the mutex if and only if nobody holds it |
| `MutexProgress.LockHolds` | generic/mutex.hpp:21-30 | a call of `lock` that is over and was not cancelled has held the mutex |
| `MutexProgress.RunEnds` | generic/mutex.hpp:15-36 | only a bounded number of steps can happen while nobody calls and no sleep ends for no reason |
| `MutexProgress.EndMeansIdle` | generic/mutex.hpp:21-36 | where no such step is left, nobody holds the mutex and nobody is waiting for it |
| `Mutexes.BasicMutex.TryLock` | generic/mutex.hpp:15-19 | one exchange; true exactly if the task holds the mutex now |
| `Mutexes.BasicMutex.Lock` | generic/mutex.hpp:21-30 | one turn of the loop: takes the mutex or submits a wait for the set flag |
| `Mutexes.BasicMutex.UnlockStore` | generic/mutex.hpp:34 | clears the flag before anybody is notified |
| `Mutexes.BasicMutex.UnlockNotify` | generic/mutex.hpp:35 | leaves one wake under way |
| `Mutexes.BasicMutex.Return` | generic/mutex.hpp:23-29 | after its wait `lock` goes back to its exchange |
| `PoolProtocol.ApplyInv` | generic/thread_pool.cpp:28-102 | every critical section of submitters and workers keeps the invariant |
| `PoolProtocol.EachJobOnce` | generic/thread_pool.cpp:28-102 | each submitted job is in exactly one place, and has been run once if it is running or done and not at all before |
| `PoolProtocol.NothingLost` | generic/thread_pool.cpp:44-67 | handing over a job never overwrites one, and the reset after a job never drops one |
| `PoolProtocol.FreeListOk` | generic/thread_pool.cpp:49-50 | the free list has no duplicates and only idle threads with an empty slot that no submitter is about to use |
| `PoolProtocol.OneThreadEach` | generic/thread_pool.cpp:76-102 | no two submitters hold the same thread |
| `PoolProtocol.SomethingEnabled` | generic/thread_pool.cpp:28-102 | as long as a job is not done, some submitter or worker can go on |
| `PoolProtocol.RunEnds` | generic/thread_pool.cpp:28-102 | from any state on, only a bounded number of actions can happen without another submission |
| `PoolProtocol.EndMeansDone` | generic/thread_pool.cpp:28-102 | where nothing else can happen, every submitted job is done and has been run once |
| `PoolReuse.ThreadsAreNeeded` | generic/thread_pool.cpp:76-85 | in every run there are as many threads as submitters have found none free: a free one is always used instead of a new one |
| `PoolReuse.FreeInOrder` | generic/thread_pool.cpp:88-96 | the threads handed out and those free now are those that became free, in order: none is forgotten and the longest free is used first |
| `ThreadPools.ThreadPool.TakeFree` | generic/thread_pool.cpp:76-96 | under the free list's lock: the first free thread, or none |
| `ThreadPools.ThreadPool.Create` | generic/thread_pool.cpp:81-85 | a new thread with an empty slot, known to its submitter only |
| `ThreadPools.ThreadPool.WorkOn` | generic/thread_pool.cpp:62-67 | puts the job into the slot, which was empty |
| `ThreadPools.ThreadPool.TakeJob` | generic/thread_pool.cpp:35-41 | takes the job out of the slot and starts to run it |
| `ThreadPools.ThreadPool.Reset` | generic/thread_pool.cpp:43-44 | clears a slot that is empty already |
| `ThreadPools.ThreadPool.Free` | generic/thread_pool.cpp:49-50 | appends the worker to the free list, in which it was not |
| `RawStreams.Stream.RawRead` | iostream/string_stream.hpp:16-21 | reads the next bytes of the source in order, as many as the answer says: all that fit for a string stream, some if there are any for an arbitrary one, none if it fails |
| `RawStreams.Stream.RawWrite` | iostream/string_stream.hpp:40-44 | appends as much of the buffer to the output as the answer says: all of it for a string stream |
| `BufferedStreams.BorrowedStream.FillBuf` | iostream/stream_base.hpp:469-482 | reads the next piece of the source into the buffer from the read position on, over what was unread there; end of file only at the end of the source or with no room left, and then nothing changes; fails exactly if the raw read fails |
| `BufferedStreams.BorrowedStream.GetLine` | iostream/stream_base.hpp:74-91 | delivers the bytes before the first `eol` and leaves those after it; at end of file there was no `eol` and everything is delivered; it fails if and only if a raw read of this call fails, and then a part without `eol` is delivered and the rest is left; nothing is read while the line is in the buffer |
| `BufferedStreams.BorrowedStream.DropLine` | iostream/stream_base.hpp:93-106 | drops what `getline` would have delivered, with the same outcome |
| `BufferedStreams.BorrowedStream.GetN` | iostream/stream_base.hpp:195-211 | delivers the first n bytes and leaves the others, or everything at end of file; fails if and only if a raw read fails |
| `BufferedStreams.BorrowedStream.DropN` | iostream/stream_base.hpp:179-193 | drops what `getn` would have delivered, with the same outcome |
| `BufferedStreams.BorrowedStream.GetAll` | iostream/stream_base.hpp:227-235 | delivers all bytes up to the end of the source; fails if and only if a raw read fails |
| `BufferedStreams.BorrowedStream.TryRead` | iostream/stream_base.hpp:276-282 | hands out buffered bytes as far as there is room and keeps the others |
| `StreamLines.LineUnique` | iostream/stream_base.hpp:74-91 | what a line read delivers and leaves is determined by the unread bytes, not by how they come in pieces |
| `StreamLines.TakenUnique` | iostream/stream_base.hpp:195-211 | the same for a read of n bytes |
| `StreamLines.LineFromAnywhere` | iostream/stream_base.hpp:74-91 | on every stream that does not fail, in whatever pieces it delivers, a line read succeeds if and only if the text has an `eol`, with the line before it |
| `StreamLines.BytesFromAnywhere` | iostream/stream_base.hpp:195-211 | the same for a read of n bytes: it succeeds if and only if there are as many |
| `BufferedStreams.BorrowedStream.PutSpan` | iostream/stream_base.hpp:326-348 | ends, also with no buffer at first; written and buffered bytes together grow by exactly the span; nothing is written if there is room for it; it fails if and only if the raw stream refuses a write or fails a flush, and then it says how much was put and how much of the buffer was written |
| `BufferedStreams.BorrowedStream.TryWrite` | iostream/stream_base.hpp:350-374 | puts as much as there is room for and writes nothing |
| `BufferedStreams.BorrowedStream.WriteAll` | iostream/stream_base.hpp:415-431 | for every sequence of answers of the raw stream, the bytes that the loop writes: the whole buffer in order, or a proper prefix before a failure or an empty write |
| `BufferedStreams.BorrowedStream.Flush` | iostream/stream_base.hpp:405-436 | outcome, bytes written and bytes still buffered as a function of the answers of the raw stream; success empties the buffer and flushes the raw stream behind what it wrote; without buffered bytes nothing is called; with at most one byte buffered, written and buffered bytes together are always what was put |
| `BufferedStreams.LosesCount` | iostream/stream_base.hpp:415-431 | a flush does not conserve the bytes if and only if its first write takes some but not all of them and a later one fails or takes nothing |
| `BufferedStreams.ConservedIf` | iostream/stream_base.hpp:405-436 | a flush conserves the bytes whatever the raw stream answers, and a second one writes none of them twice, if and only if at most one byte is buffered |
| `BufferedStreams.SecondFlush` | iostream/stream_base.hpp:405-436 | after a flush that kept the buffer, one that succeeds writes the whole buffer, the k bytes written before for the second time |
| `BufferedStreams.BorrowedStream.FlushAgain` | iostream/stream_base.hpp:405-436 | the same on the stream itself |
| `BufferedStreams.FirstByteTwice` | iostream/stream_base.hpp:405-436 | for any two or more bytes that fit into the buffer, a stream on which the first flush fails, the second succeeds, and the first byte has been written twice |
| `BufferedStreams.BorrowedStream.PutLine` | iostream/stream_base.hpp:392-396 | success has written everything put so far and the line with its end; after a failure it says how much of the line was put and how much of the buffer was written |
| `StreamLines.WriteThenRead` | iostream/stream_base.hpp:74-91 | lines written one by one to any stream that takes them, in whatever pieces, and read back from any stream that does not fail, are the same lines |
| `SplitStrings.FindFirst` | utils/string_utils.hpp:210 | the position found is the first occurrence |
| `SplitStrings.JoinSplit` | utils/string_utils.hpp:209-226 | joining the parts with the delimiter gives the string back |
| `SplitStrings.PartsClean` | utils/string_utils.hpp:209-226 | no part contains the delimiter |
| `SplitStrings.SplitJoin` | utils/string_utils.hpp:209-226 | splitting undoes joining if and only if the delimiter behind each part first occurs where the part ends and the last part has none |
| `SplitStrings.SplitJoinChar` | utils/string_utils.hpp:276-278 | for a single character it is enough that no part contains it |
| `SplitStrings.Iterator.FindNext` | utils/string_utils.hpp:209-226 | one step of the iterator delivers the next part of the split; with an empty delimiter it delivers the empty string and never ends |
| `SplitStrings.Collect` | utils/string_utils.hpp:243-249 | the loop ends if and only if the delimiter is not empty, after as many turns as there are parts, and has collected exactly those; with an empty delimiter it collects empty strings for ever |

## Left out

- Erasing a timer with two children (utils/rbtree.hpp:177-201), and so the cancellation of such timers: that branch rewires through the wrong parent.
- RbTree.TimerTree.Insert: the link to the owning tree is a flag, and the ordering key is the expiry time as an integer.
- TimerQueue.GenericIOContext.RunDuration: the clock is a parameter, one reading per turn of the loop; resumed coroutines cancel nothing, start each timer once and finitely many in all, as otherwise the source's loop need not end.
- JsonParsing.JsonParse: real numbers go through the parameter `stod`, and the printer leaves them out.
- JsonEncoding.JsonEncoder.PutValue: objects reached by reflection, pointers, optionals and variants are not printed here, nor is a parsed value, whose trait calls the wrong function.
- Reading JSON values into C++ types (`getValue`).
- TaskSemantics.Eval: loops inside a body, generators, exceptions, and awaiting a task that is kept in a variable; a body is a finite tree.
- Tasks.CoAwait: allocation state and debug bookkeeping.
- WhenAlls.WhenAll: children that throw; the results of the tuple form, which differ in type only.
- RingQueues.RingQueue.Push: the array has one slot more than the capacity, as the positions need, whereas the source allocates one fewer.
- The size of the ring (utils/ring_queue.hpp:33-36), which uses the wrong modulus.
- QueueProtocol.NoLostWakeup: tasks of one thread, which switch only where they await; the `try_` forms and the concurrent queue, which notify only at the edge.
- MutexProtocol.MutualExclusion: only the holder unlocks; sequentially consistent memory.
- PoolProtocol.EachJobOnce: before shutdown; the list of working threads is not kept, as a worker may finish before it is listed there; a job is a number.
- BufferedStreams.BorrowedStream.GetN: sizes do not wrap around.
- BufferedStreams.BorrowedStream.PutLine: the newline is put as a span of one byte.
- Everything in the stream that asks `bufempty`, and `getspan`, `peekn`, `getchar`, `write` and lines with longer ends; the output position starts at 0, which the source leaves uninitialised.
- `rest` and the fixed-size `collect` of the string splitter; the loop of `collect` is watched for a given number of turns.
- io_uring, sockets, files, cancellation other than of waits, `when_any`, the intrusive list, the semaphore, URIs, formatted debug output, allocators and performance counters.
