# Verified models of the systems experiments

A Dafny 4.11 model of the algorithms and protocols in a collection of computer-systems
experiments: a lock-free queue and a fair lock, signal-driven job control, event-driven servers,
robust I/O, upload parsing, a coroutine scheduler and a few array algorithms. Each module follows
one source file; `dafny verify dfyconfig.toml` checks them all.

Code that runs concurrently with something else (other threads, signal handlers, the kernel) is a
state machine whose steps are the source's atomic operations, and its theorems quantify over every
finite sequence of steps. Code that works on buffers, arrays and fields is a method or a class, and
its contract ties it to a function or a property that does not mention its loop. System calls are
scripts or arguments: any result, in any order, that the call may return.

| file | models |
|---|---|
| `MpmcRing.dfy`, `MpmcCalls.dfy`, `MpmcProgress.dfy` | the bounded multi-producer multi-consumer ring: its safety, whose values it holds, its progress |
| `FairRwLock.dfy` | the FIFO reader-writer lock |
| `ShellJobs.dfy`, `JobSync.dfy` | SIGCHLD, masks, fork and the two job tables |
| `EchoConnection.dfy` | one connection of the edge-triggered echo server, in bytes |
| `EdgeTrigger.dfy`, `EdgeProgress.dfy` | the same in events: no stall, bounded work, a reachable close |
| `PollServer.dfy`, `SelectServer.dfy` | one round of the poll and the select server |
| `Rio.dfy` | robust I/O |
| `TinyFields.dfy`, `TinyRequests.dfy`, `Multipart.dfy`, `TinyTransaction.dfy` | uploads to the Tiny server, from the header fields to a whole transaction |
| `CoroutineScheduler.dfy` | the coroutine scheduler |
| `PtrChase.dfy`, `Dedup.dfy`, `Sio.dfy`, `Unrolled.dfy` | the array and string algorithms |
| `Bits.dfy`, `Bytes.dfy` | shared arithmetic |

## Where the code and its promise part ways

- Shell: a foreground command started while all sixteen job slots are taken is waited for forever
  (`FullTableHangsForeground`); the wait can end exactly when the add found a slot
  (`WaitCanEndIffListed`).
- Ring: a failed pop does not mean an empty queue (`FalseIsNotEmpty`); it fails exactly when its
  position is unpublished (`FalseMeansPositionUnavailable`). Nor does a failed push mean a full one
  (`FalseIsNotFull`). The documentation says so too.
- Header loop: it spins forever on a stream without a blank line (`HeaderLoopEndsIff`), and a
  header line that ends in CRLF and has more than 2 bytes, 2 modulo 8191, ends the headers early
  (`LongHeaderStopsEarly`); otherwise, and only then, it stops at their end
  (`HeaderLoopExactIff`).
- Header fields: a line longer than the buffer is taken in pieces, so that a Content-Length inside
  it can count (`LongLineSetsLength`). A line leaves a field alone exactly if no piece carries the
  name (`LeavesLengthIff`, `LeavesTypeIff`), and gives what it says exactly if its value survives
  the cuts (`KeepsLengthIff`, `KeepsTypeIff`); an upload is stored exactly by the length in the last
  piece with the name (`PutRoundTripIff`).
- PUT: the number of bytes reported is the size of the file exactly when no write failed
  (`ServePut`).
- Multipart: the content comes back exactly when it lacks the separator (`ContentRoundTripIff`),
  and the file name exactly when no earlier header text looks like one (`FilenameRoundTripIff`);
  a form field named `...filename=` hides it (`FieldNameHidesFile`).
- Hash dedup: the table size stays within an `int` exactly for at most 2^29 words, half of what a
  bound on twice the count alone would allow (`TableSizeFitsInt`).
- Edge-triggered reads: reading once per event can leave input unread for good (`ReadOnceStalls`),
  unless every event is followed by a MOD that looks at the input again, as on Linux
  (`StallsIff`); the server's loop to EAGAIN needs no such kernel (`NoStall`).

## Model

| member | source | states |
|---|---|---|
| `Bits.MaskIsMod` | Chapter12/12.5/summary.md:976-1052 | masking with capacity minus one is reduction modulo the capacity, for every power of two in the sense of the static assertion |
| `MpmcRing.StepKeepsInv` | Chapter12/12.5/summary.md:992-1047 | every atomic operation of every thread keeps the slot discipline: each cell is free, being filled, full or being emptied at one position, and owned accordingly |
| `MpmcRing.StillFree` | Chapter12/12.5/summary.md:996-1007 | a cell seen free at a position is still free when the exchange on that position succeeds |
| `MpmcRing.StillFull` | Chapter12/12.5/summary.md:1024-1035 | a cell seen full at a position is still full when the exchange on that position succeeds |
| `MpmcRing.PositionsBounded` | Chapter12/12.5/summary.md:992-1047 | in every interleaving removals never pass insertions, and insertions are at most Capacity ahead |
| `MpmcRing.DataAccessExclusive` | Chapter12/12.5/summary.md:1015-1046 | two threads are never both about to access one cell's data |
| `MpmcRing.ClaimsUnique` | Chapter12/12.5/summary.md:1003-1036 | in every run a position has one producer and one consumer: whoever holds it is the one recorded for it, never both at once, and no step changes the record |
| `MpmcRing.NeverOverwritten` | Chapter12/12.5/summary.md:1015-1046 | a value is stored only after the value one lap earlier was delivered |
| `MpmcRing.PoppedIsPushed` | Chapter12/12.5/summary.md:1043-1046 | the value delivered at a position is the one pushed there; nobody holds a delivered position, and no step delivers it again or changes the record |
| `MpmcRing.DeliveredOnce` | Chapter12/12.5/summary.md:1021-1047 | counted over every run, the pops completed at a position are one if it is recorded as delivered and none otherwise |
| `MpmcCalls.ArgumentKept` | Chapter12/12.5/summary.md:992-1018 | in every run a thread inside try_push carries, through all retries, the argument of the call it is in |
| `MpmcCalls.PushesAreCalls` | Chapter12/12.5/summary.md:992-1018 | in every run each claimed position was claimed by a call of its own with the argument of that call: nothing else is pushed, and nothing twice |
| `MpmcRing.QuiescentIsQueue` | Chapter12/12.5/summary.md:992-1047 | with no call in progress, deliveries are exactly the first pushes and the cells hold exactly the rest, in order |
| `MpmcRing.FalseMeansPositionUnavailable` | Chapter12/12.5/summary.md:1003-1039 | in every interleaving a push fails if and only if the value one lap below is undelivered, a pop if and only if its position is not published |
| `MpmcRing.FalseIsNotEmpty` | Chapter12/12.5/summary.md:1061-1063 | from every empty ring an interleaving leads to a failing pop while a completed push is stored |
| `MpmcProgress.LostToAnother` | Chapter12/12.5/summary.md:1002-1038 | in every interleaving an exchange that does not fail spuriously succeeds if and only if its position is still the next one; otherwise another thread has claimed that position since it was loaded |
| `MpmcProgress.FinishesAlone` | Chapter12/12.5/summary.md:992-1047 | from every reachable state a thread that runs alone has finished its call after six steps |
| `MpmcProgress.FalseIsNotFull` | Chapter12/12.5/summary.md:1061-1063 | from every full ring an interleaving leads to a failing push while two positions are claimed for removal and a later cell is already free |
| `FairRwLock.Lock.GrantWaiters` | Chapter12/12.5/summary.md:774-797 | the loop grants what the specification function grants |
| `FairRwLock.Lock.Acquire` | Chapter12/12.5/summary.md:736-757 | a request is queued last and then a grant is tried, which a taken lock refuses |
| `FairRwLock.Lock.UnlockShared` | Chapter12/12.5/summary.md:744-749 | one reader leaves, and the last one lets the queue move |
| `FairRwLock.Lock.Unlock` | Chapter12/12.5/summary.md:759-763 | the writer leaves and the queue moves |
| `FairRwLock.GrantTakes` | Chapter12/12.5/summary.md:774-797 | a grant takes nothing from a busy lock, otherwise one writer or the longest run of readers from the front |
| `FairRwLock.StepKeepsInv` | Chapter12/12.5/summary.md:736-797 | every call keeps: holders are one writer or the counted readers, arrivals are grants followed by the queue, no idle lock with a queue |
| `FairRwLock.WriterExclusion` | Chapter12/12.5/summary.md:774-797 | in every run a writer inside is alone inside |
| `FairRwLock.NeverIdleWithWaiters` | Chapter12/12.5/summary.md:744-797 | in every run somebody is inside while somebody waits |
| `FairRwLock.GrantsInArrivalOrder` | Chapter12/12.5/summary.md:724-726 | in every run the granted requests are the first arrivals, and the list only grows |
| `FairRwLock.ArrivalWaits` | Chapter12/12.5/summary.md:736-757 | an arrival at a free lock is let in at once and alone; at a taken lock it goes to the end of the queue and lets nobody in, reader or writer |
| `FairRwLock.ReleaseInPhase` | Chapter12/12.5/summary.md:744-749 | a release that leaves somebody inside lets nobody in |
| `FairRwLock.PhaseEndGrants` | Chapter12/12.5/summary.md:744-797 | the release that empties the lock lets in the writer at the front or the readers up to the first writer, and nobody else |
| `FairRwLock.BatchNeverGrows` | Chapter12/12.5/summary.md:724-797 | until a phase ends nobody is let in, whoever arrives, and those inside can only leave |
| `FairRwLock.StepMovesForward` | Chapter12/12.5/summary.md:808-810 | a waiting request never falls back, and the end of a phase moves it forward or lets it in |
| `FairRwLock.BoundedWait` | Chapter12/12.5/summary.md:808-810 | a request with k requests ahead is granted by the time k + 1 phases have ended, whatever else arrives |
| `PtrChase.SwapJoins` | Chapter6/6.4-6.5/expirements/ptr_chase.c:25-30 | swapping the pointers of two cycles' heads makes one cycle of them |
| `PtrChase.SwapMerges` | Chapter6/6.4-6.5/expirements/ptr_chase.c:25-30 | a swap keeps the partition into cycles, with exactly one slot up to the loop index in each |
| `PtrChase.ShuffleIsSingleCycle` | Chapter6/6.4-6.5/expirements/ptr_chase.c:24-30 | for every size and all random numbers the swaps make one cycle: the walk from 0 visits every slot once and first returns after n hops |
| `PtrChase.ShuffleInjective` | Chapter6/6.4-6.5/expirements/ptr_chase.c:25-30 | two shuffles that agree made the same choice at every swap |
| `PtrChase.ShuffleReachesAll` | Chapter6/6.4-6.5/expirements/ptr_chase.c:5-30 | every single cycle over the slots is the result of some choices, so choices and cycles correspond one to one |
| `PtrChase.Shuffle` | Chapter6/6.4-6.5/expirements/ptr_chase.c:21-30 | the loops compute those swaps on the identity, so the array is one cycle |
| `PtrChase.Chase` | Chapter6/6.4-6.5/expirements/ptr_chase.c:32-34 | the timed loop ends after the given number of hops from 0 |
| `PtrChase.ReturnsExactlyAtMultiples` | Chapter6/6.4-6.5/expirements/ptr_chase.c:24-34 | on one cycle the walk is at 0 if and only if the number of hops is a multiple of n |
| `PtrChase.SingleCycleIsPermutation` | Chapter6/6.4-6.5/expirements/ptr_chase.c:5-6 | one cycle is a permutation: every slot is pointed at by exactly one slot |
| `Dedup.FirstOccurrencesExact` | Chapter5/5.12-5.14/expirements/dedup.c:53-67 | the reference result has exactly the input's words, each once |
| `Dedup.FirstOccurrencesOrdered` | Chapter5/5.12-5.14/expirements/dedup.c:53-67 | the reference result keeps the order of first appearance |
| `Dedup.DedupQuadratic` | Chapter5/5.12-5.14/expirements/dedup.c:53-67 | the quadratic version computes the reference result |
| `Dedup.TableSizeFitsInt` | Chapter5/5.12-5.14/expirements/dedup.c:71-73 | the doubling stays in a 32-bit int if and only if there are at most 2^29 words |
| `Dedup.Capacity` | Chapter5/5.12-5.14/expirements/dedup.c:71-73 | the table has the least power of two that is at least twice the count |
| `Dedup.HashWord` | Chapter5/5.12-5.14/expirements/dedup.c:81-83 | the hash loop computes djb2 modulo 2^64 |
| `Dedup.MissMeansAbsent` | Chapter5/5.12-5.14/expirements/dedup.c:86-92 | a probe that ends at a hole without a match proves that the word is not stored |
| `Dedup.InsertKeepsTable` | Chapter5/5.12-5.14/expirements/dedup.c:93-96 | storing a word where its probe ended keeps every probe path free of holes |
| `Dedup.FindSlot` | Chapter5/5.12-5.14/expirements/dedup.c:81-92 | the probe ends, reports a duplicate exactly when the word is stored, and otherwise stops at a hole of its path |
| `Dedup.AddWord` | Chapter5/5.12-5.14/expirements/dedup.c:80-97 | one turn appends the word exactly when it is new |
| `Dedup.DedupHash` | Chapter5/5.12-5.14/expirements/dedup.c:70-100 | the hash version computes the same words in the same order as the quadratic one |
| `ShellJobs.JobTable.AddJob` | Chapter8/8.5-8.6/shell/main.c:44-54 | the job goes into the first free slot, or nowhere if there is none |
| `ShellJobs.JobTable.DeleteJob` | Chapter8/8.5-8.6/shell/main.c:58-67 | the first slot with the pid is freed and its flag returned, or not found |
| `ShellJobs.AddEffect` | Chapter8/8.5-8.6/shell/main.c:44-54 | an add changes the listed pids by the new one at most, and exactly if there is a free slot |
| `ShellJobs.DeleteEffect` | Chapter8/8.5-8.6/shell/main.c:58-67 | a delete removes exactly its pid and reports whether and how it was listed |
| `ShellJobs.StepKeepsInv` | Chapter8/8.5-8.6/shell/main.c:81-213 | every step of main flow, handler, kernel and children keeps the protocol's invariant |
| `ShellJobs.ZombiesAreAnnounced` | Chapter8/8.5-8.6/shell/main.c:89-104 | in every interleaving an unreaped zombie means a pending SIGCHLD or an active handler loop |
| `ShellJobs.TableExactWhenUnblocked` | Chapter8/8.5-8.6/shell/main.c:186-213 | in every state the table lists, each once, exactly the unreaped children but for those whose add met a full table and the one between fork and add; with SIGCHLD unblocked outside the handler, at the prompt or in sigsuspend, the latter is void |
| `ShellJobs.DeleteFindsTheJob` | Chapter8/8.5-8.6/shell/main.c:91-94 | a reaped child is not found if and only if its add met a full table |
| `ShellJobs.OneForegroundJob` | Chapter8/8.5-8.6/shell/main.c:186-213 | at most one foreground job exists, and only while its command runs |
| `ShellJobs.WaitEndsAfterReap` | Chapter8/8.5-8.6/shell/main.c:205-209 | eval leaves the wait only after the very child it waits for was reaped |
| `ShellJobs.NoLostWakeup` | Chapter8/8.5-8.6/shell/main.c:203-208 | suspended with nothing pending and no handler running, the awaited child is alive |
| `ShellJobs.HandlerDrains` | Chapter8/8.5-8.6/shell/main.c:91-108 | a running handler can always finish, and it has then reaped every zombie |
| `ShellJobs.DroppedWaitNeverEnds` | Chapter8/8.5-8.6/shell/main.c:53-209 | the wait for a child that did not get a slot never ends in any run |
| `ShellJobs.WaitCanEndIffListed` | Chapter8/8.5-8.6/shell/main.c:205-209 | from every point of the wait its end can be reached if and only if the add found a slot |
| `ShellJobs.FullTableHangsForeground` | Chapter8/8.5-8.6/shell/main.c:44-209 | sixteen running background jobs and a foreground command are a reachable hang |
| `JobSync.JobList.AddJob` | Chapter8/8.5-8.6/sync/joblist.c:17-23 | the pid is appended, or dropped when the array is full |
| `JobSync.JobList.DeleteJob` | Chapter8/8.5-8.6/sync/joblist.c:26-40 | the pid's slot is filled with the last entry, and a miss is reported exactly for an unlisted pid |
| `JobSync.DeleteEffect` | Chapter8/8.5-8.6/sync/joblist.c:26-35 | removal by swapping loses the pid and nothing else and keeps the list free of repeats |
| `JobSync.StepKeepsInv` | Chapter8/8.5-8.6/sync/procmask.c:17-64 | every step of main flow, handler and children keeps the list equal to the unreaped children |
| `JobSync.DeleteAlwaysFinds` | Chapter8/8.5-8.6/sync/procmask.c:24-28 | in every interleaving the not-found branch is unreachable, the list never fills and has no repeats |
| `JobSync.EmptyMeansAllReaped` | Chapter8/8.5-8.6/sync/procmask.c:47-65 | an empty list outside the add section, and the exit, mean that no child is left |
| `JobSync.ForksAll` | Chapter8/8.5-8.6/sync/procmask.c:47-65 | counted over every run, five children are forked before the program polls or exits |
| `JobSync.PollingMakesProgress` | Chapter8/8.5-8.6/sync/procmask.c:62-64 | while jobs remain, a child runs, a signal is deliverable or the handler works |
| `JobSync.CanAlwaysExit` | Chapter8/8.5-8.6/sync/procmask.c:17-65 | from every reachable state some continuation ends the program, and then every child is reaped |
| `JobSync.HandlerEmptiesList` | Chapter8/8.5-8.6/sync/procmask.c:24-31 | the blocking handler returns only with no child and an empty list |
| `EchoConnection.GrowCapacity` | Chapter12/12.2/experiments/epoll_et_echo_server.c:116-126 | the growth loop ends with room for the request at a doubling of the start or at the cap, below twice the request beyond the initial size |
| `EchoConnection.Connection.AppendOutput` | Chapter12/12.2/experiments/epoll_et_echo_server.c:101-139 | appends in order across compaction and growth; refuses exactly when backlog and data exceed the cap, allocates only when they exceed the buffer; otherwise leaves the backlog as it was |
| `EchoConnection.Connection.FlushOutput` | Chapter12/12.2/experiments/epoll_et_echo_server.c:142-162 | written bytes then backlog stay the same sequence; success with a backlog means the last write returned EAGAIN |
| `EchoConnection.Connection.DrainInput` | Chapter12/12.2/experiments/epoll_et_echo_server.c:165-212 | success means that exactly the results up to EAGAIN or end of file were read, with every byte written or pending in order; failure means a failed read or write, a refused allocation or a chunk over the cap, and without these there is none |
| `EchoConnection.Connection.HandleEvent` | Chapter12/12.2/experiments/epoll_et_echo_server.c:322-348 | an open connection has all bytes accounted for, watches EPOLLOUT exactly with a backlog, and the backlog met EAGAIN; announced input was read to EAGAIN or end; a failure close has a failed call, a refused allocation or the cap as its cause, and never comes without one; a close for completion comes after everything was echoed |
| `EchoConnection.Connection.Serve` | Chapter12/12.2/experiments/epoll_et_echo_server.c:295-349 | over any sequence of events and any kernel behaviour: exactly what the handled events let through was read, to EAGAIN or the end once any of them announced input; an open connection is as after one event, the closing event gives the same causes as for one event, and a kernel without failures never gives a failure close while all input fits the cap |
| `EdgeTrigger.StepKeepsInv` | Chapter12/12.2/experiments/epoll_et_echo_server.c:142-348 | every step of server and kernel keeps unread input and a movable backlog announced, if the server drains or every MOD looks at the input again |
| `EdgeTrigger.NoStall` | Chapter12/12.2/experiments/epoll_et_echo_server.c:164-348 | in every interleaving, on a kernel that looks at every interest on a MOD or at added ones only, asleep without a queued event means no unread input and a backlog only against a full socket |
| `EdgeTrigger.ReadOnceStalls` | Chapter12/12.2/epoll.md:543-546 | a server that reads once per event reaches a sleep with unread input and no event, if it skips a MOD that changes nothing or the kernel looks at added interests only |
| `EdgeTrigger.StuckStays` | Chapter12/12.2/epoll.md:535-546 | it ends only by the peer: no run of server steps and freed space leaves it |
| `EdgeTrigger.StallsIff` | Chapter12/12.2/epoll.md:541-550 | such a sleep is reachable if and only if the server reads once per event and not every MOD of every event looks at the input again |
| `EdgeProgress.WorkIsBounded` | Chapter12/12.2/experiments/epoll_et_echo_server.c:142-212 | between two sleeps the server takes at most as many steps as the work at hand allows, plus three per byte arriving meanwhile, whatever the kernel does |
| `EdgeProgress.EchoesEverything` | Chapter12/12.2/experiments/epoll_et_echo_server.c:322-348 | in every run bytes that came in are unread, pending or echoed, and a closed connection has echoed them all |
| `EdgeProgress.CanAlwaysClose` | Chapter12/12.2/experiments/epoll_et_echo_server.c:295-349 | from every reachable state some continuation closes the connection with everything echoed |
| `PollServer.AddClient` | Chapter12/12.2/experiments/poll_echo_server.c:59-70 | the client is appended unready, or refused at the limit |
| `PollServer.RemovePollFd` | Chapter12/12.2/experiments/poll_echo_server.c:53-57 | the slot takes the last entry and the rest keeps its place |
| `PollServer.ScanClients` | Chapter12/12.2/experiments/poll_echo_server.c:128-153 | the loop with removal and early exit computes the scan over all polled entries and leaves slot 0 alone |
| `PollServer.PollRound` | Chapter12/12.2/experiments/poll_echo_server.c:103-153 | a round computes the scan over the clients, the accepted one included if POLLIN was reported for the listener, with the listener kept in slot 0 |
| `PollServer.ScanExact` | Chapter12/12.2/experiments/poll_echo_server.c:128-153 | each entry is handled as often as it stands there with any flag reported, and stays unless an error was reported or it had input or a hang-up and its echo fails |
| `PollServer.NothingReadyLeft` | Chapter12/12.2/experiments/poll_echo_server.c:128-132 | with nothing ready left the rest of the scan does nothing |
| `PollServer.RoundExact` | Chapter12/12.2/experiments/poll_echo_server.c:103-153 | a round handles each ready client exactly once per entry and nobody else; a connection joins if POLLIN was reported for the listener and there is room, and is not handled yet |
| `PollServer.RoundKeepsDistinct` | Chapter12/12.2/experiments/poll_echo_server.c:103-153 | the descriptors of listener and clients stay distinct, no client is handled twice and the listener not at all |
| `SelectServer.RecomputeMaxFd` | Chapter12/12.2/experiments/select_echo_server.c:52-56 | the loop ends at the greatest member, or at -1 for the empty set |
| `SelectServer.ScanClients` | Chapter12/12.2/experiments/select_echo_server.c:126-139 | the ready clients are handled once each in ascending order, failing ones leave the set, maxfd stays its greatest member |
| `SelectServer.SelectRound` | Chapter12/12.2/experiments/select_echo_server.c:97-139 | after a round exactly the clients that did not fail and the accepted descriptor, if it fits the set, are watched, the listener among them; the ready clients were handled once each in ascending order |
| `Rio.ReadN` | Chapter10/rio/rio.c:9-28 | delivers the requested count or all there is, whatever the chunking; delivered and unread bytes are the stream |
| `Rio.WriteN` | Chapter10/rio/rio.c:33-51 | writes everything in order, or a proper prefix and reports an error |
| `Rio.Reader.Refill` | Chapter10/rio/rio.c:70-81 | refilling never loses or reorders a byte, and reports the end only when nothing remains |
| `Rio.Reader.Read` | Chapter10/rio/rio.c:70-91 | hands over a prefix of what remains, empty only at the end or on request |
| `Rio.Reader.ReadLine` | Chapter10/rio/rio.c:96-118 | puts exactly the line at the front, cut at the limit, into the caller's buffer with a terminator and touches nothing behind; at the end of the stream the buffer stays as it was |
| `Rio.LineLenMeaning` | Chapter10/rio/rio.c:100-114 | such a line ends with the first newline, at the limit, or at the end of the stream |
| `Rio.Reader.ReadNB` | Chapter10/rio/rio.c:123-139 | returns exactly the smaller of the request and what remains |
| `Rio.Reader.ReadAll` | Chapter10/rio/rio.c:96-139 | the results of any mix of calls depend on the stream only, not on chunking or interruptions |
| `Rio.ResultsAreThePrefix` | Chapter10/rio/rio.c:96-139 | the results of any mix of calls, joined, are a prefix of the stream |
| `TinyRequests.ReadRequestHeaders` | Chapter11/tiny_web/tiny.c:149-167 | the loop leaves the reader behind the first piece that is a blank line, with the length and type that the pieces before it give |
| `TinyRequests.HeaderLoopEndsIff` | Chapter11/tiny_web/tiny.c:152-166 | the loop ends if and only if some read yields a blank line |
| `TinyRequests.LinePassed` | Chapter11/tiny_web/tiny.c:150-166 | a header line is passed whole unless its last buffer-sized piece is a bare line break |
| `TinyRequests.HeaderLoopExactIff` | Chapter11/tiny_web/tiny.c:144-167 | the loop never reads past the headers, and stops at their end if and only if no header line ends in such a piece |
| `TinyRequests.LongHeaderStopsEarly` | Chapter11/tiny_web/tiny.c:150-166 | a header line of 8191 bytes and a line break stops the loop before the end |
| `TinyRequests.LineFieldsTaken` | Chapter11/tiny_web/tiny.c:152-166 | a header line of any length gives the fields what its buffer-sized pieces give in turn, and the loop goes on behind it unless the last piece is a bare line break |
| `TinyRequests.LeavesLengthIff` | Chapter11/tiny_web/tiny.c:152-156 | a line leaves every length alone if and only if none of its pieces carries the name |
| `TinyRequests.LeavesTypeIff` | Chapter11/tiny_web/tiny.c:152-164 | a line leaves every type alone if and only if none of its pieces carries the name |
| `TinyRequests.KeepsLengthIff` | Chapter11/tiny_web/tiny.c:152-156 | the pieces of a line give the length that the line gives if and only if no later piece has the name and the number ends within the first piece or is zero, or the last piece with the name repeats the number |
| `TinyRequests.KeepsTypeIff` | Chapter11/tiny_web/tiny.c:152-164 | the same for the type, whose value has to end within the first piece or be empty |
| `TinyRequests.FittingSurvives` | Chapter11/tiny_web/tiny.c:150-166 | a line that fits the buffer keeps both |
| `TinyRequests.ServePut` | Chapter11/tiny_web/tiny.c:294-324 | a missing length or a failing open touches nothing; otherwise stores exactly the next Content-Length bytes available, and counts them right if and only if no write failed |
| `TinyRequests.ServePost` | Chapter11/tiny_web/tiny.c:338-415 | rejects a missing or excessive length and a failing allocation unread; otherwise extracts from exactly the next Content-Length bytes available and stores the content, complete if and only if no write failed |
| `TinyFields.AtolReads` | Chapter11/tiny_web/tiny.c:155-156 | every number in decimal, negative ones included, is read back, behind any white space and before anything but a digit |
| `TinyFields.SignedReads` | Chapter11/tiny_web/tiny.c:155-156 | so is one with an explicit sign |
| `TinyFields.NoNumberIsZero` | Chapter11/tiny_web/tiny.c:155-156 | a text without a number counts as zero |
| `TinyFields.SpellsIff` | Chapter11/tiny_web/tiny.c:107-111 | the comparison without case accepts exactly the texts that differ from the name in capital letters only |
| `TinyFields.NamedIff` | Chapter11/tiny_web/tiny.c:155-157 | a line carries a name if and only if it begins with such a spelling of it |
| `TinyFields.UsualLength` | Chapter11/tiny_web/tiny.c:155 | Content-Length is such a spelling |
| `TinyFields.UsualType` | Chapter11/tiny_web/tiny.c:157 | Content-Type is such a spelling |
| `TinyFields.LengthFieldRead` | Chapter11/tiny_web/tiny.c:155-156 | a Content-Length line, each letter small or capital, sets the length to its number and nothing else |
| `TinyFields.TypeFieldRead` | Chapter11/tiny_web/tiny.c:157-164 | a Content-Type line, each letter small or capital, sets the type to its trimmed value and nothing else |
| `TinyFields.FieldsDecided` | Chapter11/tiny_web/tiny.c:152-166 | after any lines the last one with its name decides a field, and a field without one stays |
| `TinyFields.AtolCutIff` | Chapter11/tiny_web/tiny.c:155-156 | the front of a text gives the same number if and only if the number ends there or is zero |
| `TinyFields.ValueCutIff` | Chapter11/tiny_web/tiny.c:157-164 | the front of a text gives the same value if and only if the value ends there or is empty |
| `TinyTransaction.Doit` | Chapter11/tiny_web/tiny.c:88-116 | unless a read or write fails, the reply and the stored file are a function of the stream alone, for any chunking |
| `TinyTransaction.ServedFromBehindHeaders` | Chapter11/tiny_web/tiny.c:88-115 | if no header line ends in a blank piece, PUT and POST work on exactly what follows the headers |
| `TinyTransaction.HeadersRead` | Chapter11/tiny_web/tiny.c:149-167 | for lines of any length, unless the cuts leave a line break alone, the header loop takes their pieces one by one and stops at the body |
| `TinyTransaction.LengthTaken` | Chapter11/tiny_web/tiny.c:152-166 | the length that counts is that of the last line with the name, if it and the lines behind it survive the cuts |
| `TinyTransaction.LongLineSetsLength` | Chapter11/tiny_web/tiny.c:150-156 | behind 8191 bytes of the same line a Content-Length text sets the length, although the line as a whole gives nothing: it does not survive the cuts |
| `TinyTransaction.RequestServed` | Chapter11/tiny_web/tiny.c:88-116 | a request with lines of any length is an upload if and only if its method is PUT or POST, each letter small or capital; an upload is served from its body with the fields that the last pieces with their names give |
| `TinyTransaction.MethodRead` | Chapter11/tiny_web/tiny.c:97-107 | the method is the first word of the request line, behind any white space |
| `TinyTransaction.UsualMethods` | Chapter11/tiny_web/tiny.c:107-111 | PUT and POST in capitals are such spellings |
| `TinyTransaction.PutRoundTripIff` | Chapter11/tiny_web/tiny.c:88-324 | a PUT with lines of any length stores its body if and only if the last piece with the name gives its length, or a greater one with nothing behind the body |
| `TinyTransaction.PutRoundTrip` | Chapter11/tiny_web/tiny.c:88-324 | a PUT as a client writes it, with lines of any length of which those from its length on survive the cuts, stores the body, whatever follows on the connection |
| `TinyTransaction.PostRoundTripIff` | Chapter11/tiny_web/tiny.c:88-415 | a multipart POST as a client writes it, whose length and type survive the cuts, stores the content if and only if it lacks the separator, otherwise a prefix of it, under the name its headers give |
| `TinyTransaction.PlainPostStores` | Chapter11/tiny_web/tiny.c:334-415 | a POST whose type names no boundary, or that gives no type, stores exactly its body under no name of its own, whatever follows on the connection |
| `TinyTransaction.AnnouncedPlainPost` | Chapter11/tiny_web/tiny.c:334-415 | the same for a type announced in a header line |
| `Multipart.Find` | Chapter11/tiny_web/tiny.c:367-390 | the first occurrence, or -1 exactly if there is none |
| `Multipart.HeadedFoundIff` | Chapter11/tiny_web/tiny.c:387-394 | a needle whose first byte does not recur in it is found at its place if and only if the text before lacks it |
| `Multipart.BlankFound` | Chapter11/tiny_web/tiny.c:375-377 | the part's headers end at the blank line behind them, for any non-empty header lines |
| `Multipart.ContentRoundTripIff` | Chapter11/tiny_web/tiny.c:363-397 | extraction undoes the multipart format: the content comes back if and only if it lacks the separator, otherwise a prefix of it |
| `Multipart.WholeBodyIff` | Chapter11/tiny_web/tiny.c:363-397 | the whole body is taken if and only if the type has no boundary, the body no delimiter, the part no blank line, or no separator follows |
| `Multipart.NoPartNoName` | Chapter11/tiny_web/tiny.c:363-386 | without a boundary, a delimiter or a blank line, or without a name in the headers, the file name is empty |
| `Multipart.FilenameRead` | Chapter11/tiny_web/tiny.c:378-386 | a quoted name is read back whole, or as empty when it does not fit the buffer |
| `Multipart.FilenameRoundTripIff` | Chapter11/tiny_web/tiny.c:378-386 | every name comes back from its place if and only if the text before does not look like one |
| `Multipart.FieldNameHidesFile` | Chapter11/tiny_web/tiny.c:378-386 | behind a field name ending in `filename=` the text between the quotes is taken, whatever the file is called |
| `CoroutineScheduler.ScheduleUnique` | Chapter12/12.3/experiments/cpp20_coroutine_scheduler.cpp:17-56 | due ticks and scheduling order determine the whole sequence of resumptions |
| `CoroutineScheduler.ElapsedIsDue` | Chapter12/12.3/experiments/cpp20_coroutine_scheduler.cpp:17-21 | a body at any point has waited exactly the sum of its positive delays so far |
| `CoroutineScheduler.JumpKeepsOk` | Chapter12/12.3/experiments/cpp20_coroutine_scheduler.cpp:44-47 | moving the clock to the earliest timer wakes everyone due then, nobody late or early, in scheduling order, and never leaves the queue empty |
| `CoroutineScheduler.ResumeKeepsOk` | Chapter12/12.3/experiments/cpp20_coroutine_scheduler.cpp:49-54 | resuming the front task keeps ticks, order and queues right |
| `CoroutineScheduler.Scheduler.WakeDueTimers` | Chapter12/12.3/experiments/cpp20_coroutine_scheduler.cpp:64-74 | the erase loop moves exactly the due timers, in vector order |
| `CoroutineScheduler.Scheduler.NextTimerTick` | Chapter12/12.3/experiments/cpp20_coroutine_scheduler.cpp:76-82 | the result is the least wake tick of the timers |
| `CoroutineScheduler.Scheduler.ResumeTask` | Chapter12/12.3/experiments/cpp20_coroutine_scheduler.cpp:15-38 | the body runs to its next positive delay, which becomes a timer, or to its end |
| `CoroutineScheduler.Scheduler.Turn` | Chapter12/12.3/experiments/cpp20_coroutine_scheduler.cpp:41-55 | one turn keeps the invariant and uses up work, so the loop ends |
| `CoroutineScheduler.Scheduler.Run` | Chapter12/12.3/experiments/cpp20_coroutine_scheduler.cpp:40-56 | the run ends with every task done and resumes each task at exactly its due ticks, same-tick ones in scheduling order |
| `Sio.SioReverse` | Chapter8/8.5-8.6/shell/csapp.c:30-36 | exact reversal in place of a non-empty text, nothing else touched |
| `Sio.SioLtoa` | Chapter8/8.5-8.6/shell/csapp.c:39-53 | leaves the decimal text and a terminator |
| `Sio.TextRoundTrip` | Chapter8/8.5-8.6/shell/csapp.c:39-53 | parsing the text gives the number back; no leading zero, at most 20 characters |
| `Unrolled.Combine` | Chapter5/5.11/expirements/reg_spill.c:18-30 | the product over any number of accumulators is the plain product |
| `Unrolled.FourWaySum` | Chapter6/6.6/expirements/mountain.c:28-40 | the four-way sum is the plain strided sum |

## Left out

- Weak memory orders, counter wrap-around and moved-from values in the ring: steps are sequentially consistent, positions unbounded, values copied.
- Scheduling of threads by the operating system: the lock's bound counts phases, not time.
- Command-line parsing, command text, the output of `jobs`, failing `fork` or `execve`, and exit of the shell.
- `sleep` and process exit codes in the synchronisation demo; pids are fresh, as the kernel guarantees.
- The accept loop, the listening socket and the other connections of the edge-triggered server.
- Endless EINTR: scripts are finite, and a used-up script answers EAGAIN, end of file or success.
- TinyRequests.ReadRequestHeaders: ends at a read error, where the source goes on with a partly overwritten line buffer; numbers beyond a `long` are not modelled.
- TinyTransaction.Doit: ends at a failed read of the request line, where the source goes on with an unset buffer; other methods than PUT and POST are one case, and so is a request line of white space, for which the source compares an unset buffer.
- EdgeTrigger.NoStall: read and write errors and the cap of the output buffer, which close the connection, are not part of the event model.
- Rio.Reader.ReadLine: a limit of 0 is excluded because the source writes out of bounds there.
- The path under which the Tiny server stores an upload.
- Static and dynamic content, responses and error pages of the Tiny server.
- Dedup.DedupHash: needs at most 2^29 words (so does Dedup.Capacity), beyond which the source's doubling overflows an `int`.
- CoroutineScheduler.Scheduler.Run: needs the total delay of each task to fit an `int`, and each task spawned once; the text the tasks print is not modelled.
- Sio.SioLtoa: excludes the least `long`, whose negation the source computes with undefined behaviour.
- Unrolled.Combine: arithmetic is unbounded, signed overflow is not modelled.
- Unrolled.FourWaySum: arithmetic is unbounded, signed overflow is not modelled.
- Measurement-only and deliberately broken programs, and the process, thread and level-triggered echo servers.
