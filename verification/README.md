# libdynpm: a Dafny model with proofs

libdynpm is a C library for dynamic process managers. This project models the parts of it that carry
real invariants and proves what they are for. `dafny verify dfyconfig.toml` checks everything.

| file | models | form |
|---|---|---|
| `Word32.dfy` | 32-bit words, wrap-around, signed reading | functions |
| `Options.dfy`, `Distinct.dfy`, `Division.dfy` | optional values; sequences without repetition; quotients | datatype, lemmas |
| `ShmProtocol.dfy` | the lock-free one-slot broadcast and the mode query of `src/shm/shm.c`, any number of processes, every interleaving of their shared accesses | step system |
| `ShmCalls.dfy` | the same calls as written, with their loops, and their progress | class, methods |
| `ShmMetadata.dfy` | what the metadata test of the mode query detects and misses | lemmas on the step system |
| `WorkerPool.dfy` | the thread pool of `src/network/queue.c`: workers, condition variable, finalize | step system |
| `WorkQueue.dfy` | the two linked lists behind the mutex | classes, methods |
| `Tbon.dfy` | tree edges, host scans and downward send of `src/network/tbon.c` | functions, methods |
| `Broadcast.dfy` | a message forwarded through the tree, links up or down, any delivery order | step system |
| `TextFormat.dfy`, `CBuffer.dfy` | `%d`/`%s` printing and scanning, C strings in a buffer | functions, methods |
| `Numerals.dfy` | what `%d` and `%s` print and scan, digit by digit | lemmas |
| `Messages.dfy` | the fixed-field messages of `src/network/protocol.c` and the header dispatch | functions |
| `Registration.dfy` | the multi-line process manager registration, taken apart by strtok in its buffer | functions, methods |
| `PayloadMessages.dfy` | the messages with a raw payload at offset 256 | functions, methods |
| `Layouts.dfy` | the printed texts of all messages, field by field, and how lines are split | lemmas |
| `Connections.dfy` | the connection table of `src/network/client.c` and the cascade of `src/network/server.c` | class, methods, step system |
| `Teardown.dfy` | loss of a tree link, spread by the cascades | step system |

A run is a list of actions; `Leads(s, acts, t)` says that it is possible and ends in `t`. The main results
quantify over all runs, hence over all reachable states. Methods are proved against functions on values
(`View`, `Jobs`, `CString`), and the lemmas speak about those functions. `Numerals` and `Layouts` give the
meaning of the printed texts in bytes, independently of how the model prints and scans them.

Where the code and its intent differ:

- `src/shm/shm.c:391` compares in the direction opposite to its comment. The code is followed.
  `TestIsReversed` gives the exact counts for which the coded test and the described one hold,
  `QueryAcknowledgesIff` the exact condition for a query to acknowledge an update or to answer "out of
  sync", `PendingUpdatesGoUnseen` what no run can do below 2^32 - 1 mode changes, and
  `DetectionNeedsWrapAround` that these bounds are met, with any number of processes.
- The text messages come back exactly when their strings are non-empty, free of blanks and fit the
  receiver's blocks: `MessageRoundTrip`. For a payload message the text must also stay below 256 bytes:
  `PayloadRoundTrip`.
- `src/network/protocol.c:317-324` prints each application line into 256 bytes although the receiver
  allots 512 to its node list, and nothing checks the 4096 bytes of the message. `RegistrationRoundTrip`
  is about registrations within these limits (`SenderFits`); `AppLineFitsIff` gives the longest node list,
  `ManyApplicationsNeverFit` a number of applications that is too large, and `ReceiverAloneIsNotEnough`
  registrations that only the receiver could handle.
- `src/network/client.c:597-598` lowers the count even for an empty slot. The code is followed:
  `DisconnectKeepsCountIff` gives the exact condition and `CountIsOccupiedPlusDrift` the exact error in
  every run.
- `src/network/tbon.c:142-148` stops sending at the first broken link, so one broken link also cuts off
  the younger siblings. `BroadcastReachesServed` says exactly who is reached.
- `src/network/client.c:283`, `290` and `299` return without unlocking the mutex of the connection table.
  `ConnectToServer` says exactly when it stays locked; no later connect or disconnect of a slot can run.
- `src/network/server.c:305` ignores the loss of a connection that was deregistered before, so the links
  opened on its behalf stay. `TeardownDropsExactlyCut` says exactly who is torn down.
- `src/network/tbon.c:82-87` takes the last matching host and sets nothing if there is none.
  `FindLocalId` states both; `InitializeVertex` requires a listed host.
- `src/network/protocol.c:318` starts a loop at an uninitialised variable. The model starts at 0.
- The `degree * local_id` of `src/network/tbon.c:24` can overflow; `ComputeLocalEdges` requires that it
  does not.

## Model

| member | source | states |
|---|---|---|
| ShmProtocol.WriterExcludesReaders | src/shm/shm.c:308-371 | in every run of any number of processes the manager is never inside its payload copy while a process is inside its own |
| ShmProtocol.ReadersFollowWriter | src/shm/shm.c:324-371 | in every run what a process has read is a prefix of what was written, byte for byte, at most one message behind; a copy in progress is a prefix of the next message; the "missed message" branch is never taken, also after a late attach |
| ShmProtocol.CountersNeverMislead | src/shm/shm.c:308-371 | in runs of any length the wrapping counter tests, `write_count - 1` included, answer as the true message counts would |
| ShmProtocol.WrappedTestsAreExact | src/shm/shm.c:353-357 | both tests on wrapped counters decide equality and one-behind of the unbounded counts |
| ShmProtocol.CallsNeverStuck | src/shm/shm.c:308-398 | in every reachable state each call in progress has a next step, so copies stay inside the payload area |
| ShmProtocol.StepKeepsInv | src/shm/shm.c:208-437 | every shared access of every call keeps the protocol invariant |
| ShmProtocol.QueryReportsPublishedModes | src/shm/shm.c:385-437 | in every interleaving a query copies, from every process, a mode published during the scan, and reports -1/-1 exactly when it counted some but not all processes, otherwise the common copied mode with 0, otherwise -1/-2 |
| ShmCalls.QueryByLines | src/shm/shm.c:400-437 | an uninterrupted query, by the published lines alone: acknowledgement, and -1/-1 if the metadata test fires for some lines only, otherwise 0 with the common published mode, otherwise -1/-2 |
| ShmMetadata.TestIsReversed | src/shm/shm.c:385-398 | in every reachable state the coded test holds exactly when the unacknowledged mode changes are -1 modulo 2^32, the one its comment describes exactly when they are 1; the two agree exactly when neither is so |
| ShmMetadata.QueryAcknowledgesIff | src/shm/shm.c:400-437 | from every reachable state an uninterrupted query acknowledges an update exactly when this number is -1 modulo 2^32 for every process; it reports "out of sync" exactly when it is for some but not for all, otherwise the mode all processes have published, and "no agreement" if they differ |
| ShmMetadata.PendingUpdatesGoUnseen | src/shm/shm.c:385-437 | in every run nothing is acknowledged while one process has changed its mode fewer than 2^32 - 1 times, and no query answers "out of sync" while all have |
| ShmMetadata.DetectionNeedsWrapAround | src/shm/shm.c:385-437 | for any number of processes and any first m >= 1 of them there is a run in which exactly these change their mode 2^32 - 1 times and the next query acknowledges an update if they are all, and answers "out of sync" if they are not |
| ShmCalls.ReaderCatchesUp | src/shm/shm.c:349-371 | from every reachable state one read call of an attached process, alone, leaves it with all messages written so far |
| ShmCalls.WriterProceedsIffAllCaughtUp | src/shm/shm.c:324-347 | an uninterrupted write publishes its message exactly when every process has read all earlier ones |
| ShmCalls.WriteIsRun | src/shm/shm.c:308-347 | the uninterrupted write call is a run of the step system |
| ShmCalls.ReadIsRun | src/shm/shm.c:349-371 | the uninterrupted read call is a run of the step system |
| ShmCalls.QueryIsRun | src/shm/shm.c:385-437 | the uninterrupted mode query is a run of the step system |
| ShmCalls.Segment.constructor | src/shm/shm.c:79-206 | initialisation leaves zeroed lines, no attached process and a payload area of pages * 4096 - 64 bytes |
| ShmCalls.Segment.AllProcessesReadReady | src/shm/shm.c:308-322 | the loop answers yes exactly when every line's read count equals the write count |
| ShmCalls.Segment.CopyPayload | src/shm/shm.c:332 | the payload copy writes the message and nothing behind it |
| ShmCalls.Segment.ManagerWrite | src/shm/shm.c:324-347 | the exact condition of each return code, and the state of the step system afterwards |
| ShmCalls.Segment.CopyOut | src/shm/shm.c:359 | the copy-out loop yields the announced number of payload bytes |
| ShmCalls.Segment.FinishRead | src/shm/shm.c:358-363 | copy and publication of a read count, as the steps of the protocol |
| ShmCalls.Segment.ProcessRead | src/shm/shm.c:349-371 | nothing, the announced payload bytes, or error -1, by the counts; the state of the step system afterwards |
| ShmCalls.Segment.SetMalleabilityMode | src/shm/shm.c:373-383 | the new mode is published with an unchanged read count |
| ShmCalls.Segment.SyncProcessesMeta | src/shm/shm.c:385-398 | every line is copied, and the updates are counted as the scan steps count them |
| ShmCalls.Segment.FirstModeIfAgreed | src/shm/shm.c:412-421 | the comparison loop decides whether all copied modes agree |
| ShmCalls.Segment.ConcludeQuery | src/shm/shm.c:405-436 | the exact code, mode and status by the number of updates and the copied modes, and the acknowledgement |
| ShmCalls.Segment.GetMalleabilityMode | src/shm/shm.c:400-437 | uninterrupted, the exact code, mode and status by the published lines |
| WorkerPool.NoLostWakeup | src/network/queue.c:24-51 | before finalize, if a worker sleeps, the queue is no longer than the number of awake workers about to look at it |
| WorkerPool.DrainedPoolIsDone | src/network/queue.c:24-51 | before finalize, when no worker can move, all units ever added were dequeued in order and finished, and all workers sleep |
| WorkerPool.DrainIsBounded | src/network/queue.c:24-51 | workers left alone take a number of steps bounded by three per queued unit plus what they are doing |
| WorkerPool.UnitsAreConserved | src/network/queue.c:39-50 | added units are those dequeued, dropped and queued, in this order; a dequeued unit is finished or held by exactly one worker |
| WorkerPool.FinalizedPoolShutsDown | src/network/queue.c:107-123 | after finalize nothing is dequeued, nobody sleeps, and each worker takes exactly the steps its state allows until it exits |
| WorkerPool.ReachableFinalizedPoolShutsDown | src/network/queue.c:107-123 | the same for every finalized pool reached from a fresh one; at most two steps per worker |
| WorkerPool.StepKeepsWakeups | src/network/queue.c:125-142 | every step, with any set of woken sleepers and spurious wakeups, keeps the wakeup invariant |
| WorkerPool.StepKeepsTickets | src/network/queue.c:39-50 | every step keeps "finished or held by exactly one worker" |
| WorkQueue.Queue.Init | src/network/queue.c:57-105 | return codes; the lists stand for a fresh pool with one seeking worker per thread that could be created |
| WorkQueue.Queue.Add | src/network/queue.c:125-142 | the unit is appended at the tail of an acyclic list, and the call is the Add step of the pool for any workers that the signal wakes |
| WorkQueue.Queue.Check | src/network/queue.c:24-43 | a worker sleeps, leaves or dequeues the head, by emptiness and its terminate flag, and the pass is the Check step of the pool |
| WorkQueue.Queue.Finalize | src/network/queue.c:107-123 | every worker is flagged, both lists are empty, and the call is the Finalize step of the pool |
| Tbon.FirstChildFormula | src/network/tbon.c:24 | the product formula of the C code numbers the children level by level, `degree` ids per vertex |
| Tbon.ChildrenInvertParent | src/network/tbon.c:13-31 | c is listed as a child of p exactly when 1 <= c < total and p is its parent |
| Tbon.ChildrenPartition | src/network/tbon.c:13-31 | every non-root id occupies exactly one position over all child lists, under a smaller id |
| Tbon.ParentDecreases | src/network/tbon.c:13-17 | a parent id is smaller than its child's |
| Tbon.DepthIsLogarithmic | src/network/tbon.c:13-17 | d^k <= v(d-1)+1 and (v+1)(d-1)+1 <= d^(k+1) for v at depth k: depth is the logarithm of the id |
| Tbon.ComputeLocalEdges | src/network/tbon.c:10-32 | parent id, and the child array: child ids first, then -1 |
| Tbon.FindLocalId | src/network/tbon.c:82-87 | the last matching position, or the old content if no host matches |
| Tbon.ScanChildHosts | src/network/tbon.c:103-123 | the one-pass scan counts the children and gives each the host a direct lookup would |
| Tbon.InitializeVertex | src/network/tbon.c:53-127 | id, parent, child ids, child count and child hosts of a vertex agree with the tree; only the child ids of this vertex must fit `int` |
| Tbon.SendToChildren | src/network/tbon.c:129-158 | the buffer goes to the children in order up to the first closed link; 0 exactly when all are open |
| Broadcast.BroadcastReachesAllOnce | src/network/tbon.c:129-158 | with all links up, in every complete run every vertex but the root receives the message once, by total-1 messages |
| Broadcast.BroadcastReachesServed | src/network/tbon.c:138-153 | in every complete run a vertex receives the message, once, exactly when all links on its way and to elder siblings on that way are up |
| Broadcast.Forward | src/network/tbon.c:129-158 | the send loop of a vertex sends to exactly the targets that the broadcast step takes for it |
| Broadcast.BroadcastTerminates | src/network/tbon.c:129-158 | every run delivers to distinct vertices and has at most total-1 deliveries |
| Broadcast.BroadcastCompletes | src/network/tbon.c:129-158 | every run, the empty one included, can be extended to one with nothing under way, so complete runs exist for every tree and every choice of links |
| Broadcast.DeliverKeepsInv | src/network/tbon.c:136-154 | each delivery and forwarding keeps "sent to v at most once, and exactly if its parent forwarded" |
| TextFormat.RoundTrip | src/network/protocol.c:50-74 | for all conversions, printable values that fit their blocks and blank endings, scanning the printed text gives the values back, 2^31 and above included |
| TextFormat.RoundTripIff | src/network/protocol.c:50-74 | for C strings scanning gives the values back exactly when every string is non-empty, free of blanks and fits its block |
| TextFormat.ScanPrinted | src/network/protocol.c:50-74 | one conversion with room for the value reads back exactly what was printed and leaves the rest |
| TextFormat.LengthBound | src/network/protocol.c:586-591 | a printed text is no longer than 11 bytes per number, its strings and the blanks |
| Numerals.PrintedNumber | src/network/protocol.c:50-54 | `%d` prints the decimal digits, most significant first, without leading zeros; words of 2^31 and above as a minus sign and the digits of what is missing to 2^32 |
| Numerals.ScannedNumber | src/network/protocol.c:70-74 | `%d` skips blanks, takes an optional sign and all digits, and assigns their decimal value |
| Numerals.NothingScanned | src/network/protocol.c:70-74 | `%d` fails without a digit behind blanks and sign |
| Numerals.ScannedWord | src/network/protocol.c:70-74 | `%s` skips blanks and takes everything up to the next blank |
| CBuffer.StrLen | src/network/protocol.c:591 | the length of the C string in a buffer |
| CBuffer.PutText | src/network/protocol.c:578-584 | sprintf writes text and terminator and leaves the rest of the buffer |
| CBuffer.PutBytes | src/network/protocol.c:593-595 | memcpy writes the data and leaves the rest of the buffer |
| CBuffer.Append | src/network/protocol.c:324 | strcat appends to the C string in the buffer |
| CBuffer.TextFrom | src/network/protocol.c:346 | the C string that starts at a position of a buffer |
| Messages.MessageRoundTrip | src/network/protocol.c:16-565 | every fixed-field message of C strings (resource offers and process manager registrations apart) comes back field by field exactly when its strings are non-empty, free of blanks and fit the receiver's blocks of 256 or 1024 bytes |
| Layouts.HeaderOnlyText | src/network/protocol.c:16-24 | the text of a header, byte by byte: fields in order, separators, ending |
| Layouts.RegisterConnectionText | src/network/protocol.c:45-56 | the text of a connection registration, byte by byte: fields in order, separators, ending |
| Layouts.DeregisterConnectionText | src/network/protocol.c:85-97 | the text of a connection deregistration, byte by byte: fields in order, separators, ending |
| Layouts.CreateTbonText | src/network/protocol.c:172-185 | the text of a tree creation, byte by byte: fields in order, separators, ending |
| Layouts.ReadyText | src/network/protocol.c:226-237 | the text of one of the ready and done messages, byte by byte: fields in order, separators, ending |
| Layouts.DeregisterProcessManagerText | src/network/protocol.c:379-392 | the text of a process manager deregistration, byte by byte: fields in order, separators, ending |
| Layouts.AllocationRequestText | src/network/protocol.c:422-435 | the text of an allocation request, byte by byte: fields in order, separators, ending |
| Layouts.ReallocationStartText | src/network/protocol.c:469-487 | the text of a reallocation start, byte by byte: fields in order, separators, ending |
| Layouts.ReallocationCompleteText | src/network/protocol.c:525-540 | the text of a reallocation completion, byte by byte: fields in order, separators, ending |
| Layouts.ReceiverBlocks | src/network/protocol.c:62-565 | which strings the receiver of each message can store: non-empty, without blanks, below 256 or 1024 bytes |
| Messages.SenderNeverOverruns | src/network/protocol.c:45-540 | a message whose strings fit the receiver's blocks is printed in less than 4096 bytes |
| Messages.DispatchFollowsHeader | src/network/server.c:185-207 | whatever follows the header, message type 1 goes to registration, 2 to deregistration and every other one to the handler |
| Messages.MessageDispatch | src/network/server.c:185-207 | the same for every fixed-field message, whatever its strings |
| Registration.RegistrationRoundTrip | src/network/protocol.c:300-371 | for C strings within the sender's limits (each application line below 256 bytes, the text below 4096) header, host, job and applications come back, in order, exactly when host and node lists are non-empty and free of blanks and the host is shorter than 256 bytes |
| Registration.Transmit | src/network/protocol.c:300-371 | the same for serializing into a buffer and deserializing from it, in place |
| Registration.TextRoundTrip | src/network/protocol.c:330-371 | the receiver alone reads the printed text back exactly when host and node lists are non-empty, free of blanks and fit its blocks of 256 and 512 bytes |
| Registration.AppLineFitsIff | src/network/protocol.c:316-323 | an application line is shorter than 256 bytes for all numbers exactly when the node list has at most 217 bytes |
| Registration.ManyApplicationsNeverFit | src/network/protocol.c:317-325 | 512 applications or more never fit the sender's limits |
| Registration.ReceiverAloneIsNotEnough | src/network/protocol.c:316-323 | every node list of 256 to 511 bytes gives a registration that the receiver reads back but that overruns the sender's line block |
| Registration.RegistrationDispatch | src/network/server.c:185-207 | the same for every process manager registration |
| Registration.SerializeRegistration | src/network/protocol.c:300-328 | the buffer holds the header line followed by all application lines as one C string |
| CBuffer.StartText | src/network/protocol.c:307-313 | printing a text to the start of the buffer makes it the C string there and leaves the bytes behind it |
| CBuffer.PutBehind | src/network/protocol.c:593-595 | memcpy behind the C string writes the data and keeps the string |
| Registration.AppendLines | src/network/protocol.c:317-325 | the application loop appends every line in order |
| Layouts.RegistrationLayout | src/network/protocol.c:307-313 | a registration is its header line, byte by byte, and then its application lines |
| Layouts.ApplicationLineText | src/network/protocol.c:319-323 | an application line, byte by byte |
| Layouts.LinesInOrder | src/network/protocol.c:318-325 | each further application adds its line, byte by byte, at the end |
| Layouts.LineOfText | src/network/protocol.c:343-359 | lines end at line feeds and carriage returns; leading ones are skipped and reading goes on behind the one that ends the line |
| Layouts.NoLineInDelimiters | src/network/protocol.c:343-359 | there is no line in delimiters alone |
| Registration.StrTok | src/network/protocol.c:343-359 | one strtok call: the next line becomes a C string in the buffer and the next call starts behind its delimiter, as splitting the text says |
| Registration.TakeItem | src/network/protocol.c:359-368 | one turn of the reading loop in the buffer yields the next item and leaves the rest of the text |
| Registration.CollectLoop | src/network/protocol.c:358-370 | the strtok and sscanf loop collects the announced number of items from the buffer or fails at the first bad one |
| Registration.DeserializeRegistration | src/network/protocol.c:330-371 | cutting the buffer into lines in place and scanning them computes the parse that the round trip is about |
| PayloadMessages.PayloadRoundTrip | src/network/protocol.c:573-763 | whatever else the buffer holds, text fields and any payload of up to 3840 bytes, zeros included, come back exactly when the host, if there is one, is non-empty and free of blanks and the text is shorter than 256 bytes |
| PayloadMessages.Transmit | src/network/protocol.c:573-763 | the same for serializing into a buffer, with the assert that may abort, and deserializing from it |
| PayloadMessages.PayloadDispatch | src/network/server.c:185-207 | the same for every payload message |
| Layouts.LaunchText | src/network/protocol.c:573-585 | the text of a launch message, byte by byte |
| Layouts.IoOutText | src/network/protocol.c:642-655 | the text of an output message, byte by byte |
| Layouts.ReportDataText | src/network/protocol.c:710-724 | the text of a report message, byte by byte |
| PayloadMessages.NumericTextIsShort | src/network/protocol.c:578-591 | the text of a launch or report message is always shorter than 256 bytes |
| PayloadMessages.IoOutTextIsShortIff | src/network/protocol.c:647-660 | the text of an output message is shorter than 256 bytes for all fields exactly when the host has at most 212 bytes |
| PayloadMessages.SerializePayload | src/network/protocol.c:573-596 | the assert holds exactly when the text is below 256 bytes; then text and payload are both intact in the buffer |
| PayloadMessages.WriteParts | src/network/protocol.c:593-595 | writing the payload leaves the text intact and touches nothing behind the payload |
| PayloadMessages.DeserializePayload | src/network/protocol.c:598-631 | strlen, scan and copy compute the decoding that the round trip is about |
| Connections.PigeonholeConnect | src/network/client.c:248-271 | with a right count the "no NULL entry" branch is unreachable and only a full table is refused |
| Connections.DisconnectKeepsCountIff | src/network/client.c:597-599 | a disconnect keeps the count right exactly when the slot was occupied |
| Connections.CascadeRemovesExactlyOwned | src/network/server.c:307-319 | the cascade empties exactly the slots whose parent is the lost connection and lowers the count by as many, so a right count stays right |
| Connections.ConnectFillsFirstFree | src/network/client.c:248-276 | a connect is refused at a count of 64; otherwise the first empty slot holds exactly the given server and parent, and no other slot changes |
| Connections.OwnedTargetsAreLinks | src/network/server.c:307-311 | the targets dropped with a connection are those of the slots whose parent it is |
| Connections.OwnedIsOccupied | src/network/server.c:307-319 | a lost connection owns no more slots than are occupied, so with a right count no assert of the cascade's disconnects can fail |
| Connections.ConnectAllTargets | src/network/client.c:235-271 | connecting to several servers on behalf of one parent reaches the first ones, as many as there are free slots |
| Connections.CountIsOccupiedPlusDrift | src/network/client.c:248-271 | in every run the count is the occupied slots plus failed searches minus disconnects of empty slots, and each entry's index is its position |
| Connections.OccupiedDisconnectsNeverDrift | src/network/client.c:567-604 | if only occupied slots are disconnected the count stays right and no search for a slot ever fails |
| Connections.Client.constructor | src/network/client.c:11-14 | the static state before initialisation |
| Connections.Client.Init | src/network/client.c:142-172 | an empty table the first time, no effect later |
| Connections.Client.ConnectToServer | src/network/client.c:235-363 | first-fit placement; a later failure returns -1 but keeps the slot, and a failing event object also leaves the mutex locked |
| Connections.Client.DisconnectFromServer | src/network/client.c:567-604 | slot cleared, count lowered, 0 exactly when initialised and occupied |
| Connections.Client.DropOwned | src/network/server.c:307-319 | the loop empties exactly the slots whose parent is the lost connection, for any count that is at least their number |
| Connections.WithoutRemovesOne | src/network/server.c:161-183 | removal takes out one occurrence of the connection, if there is one |
| Connections.Server.constructor | src/network/server.c:700-704 | the list of incoming connections starts empty |
| Connections.Server.Accept | src/network/server.c:412-417 | a new connection is listed first |
| Connections.Server.OnClientLost | src/network/server.c:288-328 | the loss of a listed connection empties exactly the slots whose parent it is and takes it off the list; an unlisted one changes nothing; drifted counts included |
| Teardown.TeardownDropsExactlyCut | src/network/server.c:288-323 | when all losses are handled, exactly the vertices reached from the lost link through listed parents and links still open have noticed; the listed ones among them have dropped exactly the connections owned by their incoming link and left the list; nothing else has changed; any child links may be missing |
| Teardown.TeardownsCanFollow | src/network/server.c:288-323 | what any teardown leaves, finished or not, is again an overlay to which these results apply, for the loss of any other link |
| Teardown.TeardownDropsExactlySubtree | src/network/server.c:288-323 | if all links below the lost one are open and none was deregistered, these vertices are the whole subtree |
| Teardown.OpensChildrenIff | src/network/client.c:235-271 | connecting to the children opens exactly the child links precisely when the table has a free slot for each |
| Teardown.OpeningWires | src/network/client.c:235-271 | connecting every vertex to its children, from tables with room for them, opens all child links of the tree |
| Teardown.TeardownTerminates | src/network/server.c:288-323 | every run handles each vertex at most once and only vertices that are cut off |
| Teardown.TeardownCompletes | src/network/server.c:288-323 | every run, the empty one included, can be extended to one with all losses handled |
| Teardown.NoticeKeepsInv | src/network/server.c:305-323 | handling one loss, listed or not, keeps "told exactly if it is the first vertex or its parent, listed and linked to it, has handled its loss" |

## Left out

- Line copies of 64 bytes are taken as atomic and memory as sequentially consistent; fences are not modelled.
- Failures of `shm_open`, `ftruncate` and `mmap`, detaching and finalising shared memory: system calls without logic of their own.
- ShmProtocol.QueryReportsPublishedModes: needs at least one process, because the C code reads the first entry of an empty array otherwise.
- WorkQueue.Queue.Add: the unit must not be queued already; the C code would cut or loop the list.
- Running work functions and waking: steps of the pool without code of their own in the queue.
- Thread names and a second initialisation of the pool.
- TextFormat.ScanOne: a number that does not fit 32 bits is undefined behaviour in C; here it wraps.
- Messages.Deserialize: answers None where the C code would go on with fields that were never set, or would write a string past its block.
- Registration.DeserializeRegistration: the same, and None where strtok finds no further line and the C code would scan a null pointer.
- Registration.SerializeRegistration: what the C code does beyond its scratch block and its buffer; both limits are preconditions.
- Resource-offer messages: `time_t` fields go through `%d`, so they do not round-trip.
- Frame reassembly from sockets and the per-connection send queues: their state is shared across connections or guarded by different locks.
- Timed waits and the upward ready/done aggregation of the tree: clocks, and handlers outside the repository.
- libevent, DNS, logging, configuration files, memory release and lock order; the locked mutex of a failed connect is modelled only as a flag that later calls must find clear.
