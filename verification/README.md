# ST-A7 bus firmware: models and proofs

ST-A7 is firmware for a two-wire bus with one control node and many terminals. This project models its bit-level,
queue and protocol code in Dafny and proves what that code keeps over whole runs.

| part | modules | source |
|---|---|---|
| slot allocator | `Words`, `FreeRun`, `SlotGrid`, `SlotRuns`, `SlotConservation` | `apps/sysm/sysres.c` |
| TFTP sessions | `TftpSessions`, `TftpTransfer`, `TftpLossy` | `apps/tmux/tftp.c` |
| small-packet aggregation | `Aggregation`, `AggregationLaws`, `AggregationUse` | `apps/phbx/phb1_demo.c` |
| timer queue | `TimerQueue`, `Timers`, `TimerLaws`, `TimerCalls` | `apps/atimer.c` |
| RPC client and server | `RpcClient`, `RpcClientLaws`, `RpcClientRuns`, `RpcServer`, `RpcAnswers` | `apps/sysm/sysrpc.c` |
| broadcast acknowledgement | `BroadcastAck` | `apps/sysm/sysres.c` |
| resource and node tables | `ResTables`, `ResManager`, `ResOutcomes`, `ResLostSender` | `apps/sysm/resmgr.c` |
| message fragments | `Fragments`, `FragmentFaults` | `apps/atbui.c` |
| integer printer and parser | `Numerals` | `apps/mprint.c`, `apps/debug.c` |
| shared definitions | `Bytes`, `Division`, `Options` | |

Each part has the same shape. A class with the source's fields holds methods that do what the C functions do, step by
step and in place; each method is proved equal to a function of the old state; and the lemmas are about those
functions, over every input, every run or every reachable state. `dafny verify dfyconfig.toml` checks all of it.

A 64-bit word is a sequence of 64 bits with its own ripple-carry adder. `Words.AddValue`, `Words.AddIsModular` and
`Words.ValueInjective` show that this adder is addition modulo 2^64, so the carry trick of the free-run search is
proved about real addition.

## Where the code does not keep the property

Each is stated as an if-and-only-if whose condition can be checked beforehand, and with a run in which it fails.

- **Single-frame allocation.** Case 8 of `resfrm_alloc` returns the status of the last `find_cont_bits` call instead of
  0 after a successful choice. A single-frame request with room in some frame but none in frame 7 therefore takes its
  symbols and reports failure; nobody will ever free them. The guard is `SlotRuns.Loses`. Disjointness holds
  regardless; exact accounting and the sum 480 over live grants hold exactly for runs that never meet the guard.
- **TFTP block numbers.** Past 65535 blocks the numbers wrap, and acknowledgements of the first round, beginning with
  that of the request, are taken for those of later blocks: the sender finishes without the receiver. End-to-end
  delivery holds exactly for files of at most 65535 blocks.
- **TFTP retries of the sender.** The read session never resets its count of firings, the write session does with every
  data packet. So the sender gives up at the third firing since it was opened, whatever got through in between
  (`SlowTransferFails` is such a run). With everything on the way lost the transfer can still be completed exactly if
  both sessions are open and one of them has a retry left.
- **Batch count.** The count of a batch is 8 bits. Packing and unpacking keep the stream exactly when
  `MAX_BURST_PKT_SIZE <= 256 * (m + 2) + 2`, with `m` the least payload length.
- **RPC repeats.** The session remembers one key and not whose request it was. Each node's requests are run, its own
  repeats aside, exactly when no request for a registered service is a new one shadowed by another node's request with
  the same key just before it, and none is a repeat interleaved with another node's different request. In the first
  case the request is not run and answered with the other node's response, in the second it is run twice. A single
  peer is always served correctly.
- **Empty replies.** An empty reply to an addition broadcast fails the node while the request stays open, and later
  acknowledgements can still move it from FAIL to ADD_FINISH. FAIL is final in all runs of a broadcast exactly if it is
  a deletion or has nobody to inform; after given events, exactly if there was a time-out.
- **Moving a transmit resource.** `add_trs_res` takes the id from its old sender first; exactly when the new node has
  neither a free slot nor, if it is unknown, an entry to take, the id is left without a sender.
- **Fragments of a message.** A message arrives exactly if the buffer was empty, or the message needs several fragments
  and at most 3072 octets were left in it. So after an abandoned message one of a single fragment is lost, and after
  four abandoned fragments any.

One deviation has no such form: `clear_node_config` and `add_trs_res` read their table pointers before setting them,
which leaves their effect undefined. The model uses the tables they are meant for, those of `resmgr`.

## Model

| member | source | states |
|---|---|---|
| Words.AddValue | apps/sysm/sysres.c:280-284 | the word adder adds the numbers the words stand for, carry included |
| Words.AddIsModular | apps/sysm/sysres.c:280-284 | its result is the sum modulo 2^n, so `+` on `uint64_t` |
| Words.ValueInjective | apps/sysm/sysres.c:255-288 | a word is determined by its number, so bit sequences lose nothing |
| Words.MaskBits | apps/sysm/sysres.c:268-279 | `((1 << n) - 1) << p` has exactly bits p to p+n-1 set |
| FreeRun.FindFirstSet | apps/sysm/sysres.c:255-268 | one plus the index of the lowest set bit, 0 for none |
| FreeRun.SkipClearsLowestRun | apps/sysm/sysres.c:280-284 | for the lowest run i..e-1 of ones, `v & (v + (1 << i))` clears exactly that run, and the addition does not overflow |
| FreeRun.RunEnd | apps/sysm/sysres.c:272-284 | a failed mask test means the lowest run is shorter than asked |
| FreeRun.SkipKeepsFits | apps/sysm/sysres.c:280-284 | dropping a too short run loses no position where the request fits |
| FreeRun.FindContBits | apps/sysm/sysres.c:255-288 | terminates; returns the least p with p+n <= 63 and n ones from p, and fails exactly when there is none |
| SlotGrid.CodeMeaning | apps/sysm/sysres.c:163-235 | code interval+phase selects exactly the frames congruent to the phase modulo the interval |
| SlotGrid.InitialRows | apps/sysm/sysres.c:241-253 | the initial bitmap constant frees exactly symbols 4 to 63 |
| SlotGrid.SearchCorrect | apps/sysm/sysres.c:294-462 | the plain search fails iff no phase has room, and yields c iff c is the lexicographically least (position, phase) with room |
| SlotGrid.SparserFitsNoLater | apps/sysm/sysres.c:294-462 | what fits at interval k fits at 2k, at a position no later |
| SlotGrid.ChooseNext | apps/sysm/sysres.c:355-371 | comparing one more phase with a strict `<` keeps the first-fit choice over the phases tried |
| SlotGrid.ChoiceTaken | apps/sysm/sysres.c:380-390 | masking the rows of the chosen phase is taking exactly the cells of the first-fit grant |
| SlotGrid.PhaseWord1 | apps/sysm/sysres.c:326-328 | the and of all eight rows fits a run exactly where every frame does |
| SlotGrid.PhaseWord2 | apps/sysm/sysres.c:355-365 | the same for every second frame |
| SlotGrid.PhaseWord4 | apps/sysm/sysres.c:395-398 | the same for a pair of frames four apart |
| SlotGrid.Allocator.constructor | apps/sysm/sysres.c:241-253 | all rows free from symbol 4 on |
| SlotGrid.Allocator.Alloc | apps/sysm/sysres.c:294-462 | at the largest of the intervals 1, 2, 4, 8 not above the one asked for (1 for 0), takes the plain search's first-fit grant, or changes nothing and fails; at interval 8 the status is 0 iff frame 7 has room |
| SlotGrid.Allocator.AllocEvery1 | apps/sysm/sysres.c:324-351 | that outcome for all frames |
| SlotGrid.Allocator.AllocEvery2 | apps/sysm/sysres.c:353-391 | that outcome for every second frame |
| SlotGrid.Allocator.AllocEvery4 | apps/sysm/sysres.c:393-423 | that outcome for every fourth frame |
| SlotGrid.Allocator.AllocEvery8 | apps/sysm/sysres.c:425-453 | that outcome for one frame, status of the last search returned |
| SlotGrid.Allocator.Free | apps/sysm/sysres.c:465-487 | sets exactly the cells the grant covers |
| SlotRuns.FailureExact | apps/sysm/sysres.c:425-462 | allocation reports failure iff nothing has room or the losing guard holds, and loses a found place iff the guard holds |
| SlotRuns.ServedAsAsked | apps/sysm/sysres.c:301-323 | in every run an allocation takes the least place with room at that interval, under a code that selects exactly the frames congruent to its phase, or finds none and leaves all as it was |
| SlotRuns.RunInv | apps/sysm/sysres.c:294-487 | over every run grants are well placed and pairwise disjoint, and the bitmaps mark exactly what outstanding grants leave free |
| SlotRuns.LiveGrantsNeverCollide | apps/sysm/sysres.c:294-487 | in every run two live grants sharing a cell are one grant; symbols 0-3 and 63 are never granted |
| SlotRuns.LostExactly | apps/sysm/sysres.c:425-453 | a run loses grants iff one of its calls meets the guard |
| SlotRuns.ExactAccounting | apps/sysm/sysres.c:241-253 | a bit is set exactly when s >= 4 and no live grant covers it, iff no call of the run met the guard |
| SlotRuns.GridDependsOnGrantsOnly | apps/sysm/sysres.c:294-487 | two runs with the same outstanding grants end with the same bitmaps |
| SlotRuns.AllocThenFree | apps/sysm/sysres.c:294-487 | freeing what was just granted restores the whole state |
| SlotConservation.CellsOfGrant | apps/sysm/sysres.c:163-235 | a grant has len * (8 / interval) cells |
| SlotConservation.TakeCount | apps/sysm/sysres.c:335-345 | taking a free grant removes exactly its cells from the count |
| SlotConservation.SymbolsAreConserved | apps/sysm/sysres.c:294-487 | after any run free cells plus outstanding cells make 480 |
| SlotConservation.LiveSymbolsAreConserved | apps/sysm/sysres.c:294-487 | free cells plus live cells make 480 iff no call met the guard |
| SlotConservation.SingleFrameRequestLosesSymbols | apps/sysm/sysres.c:425-453 | a concrete run of four calls that ends with 30 symbols nobody holds |
| TftpSessions.ReadSession.constructor | apps/tmux/tftp.c:770-812 | the read session starts with block 1 read and sent |
| TftpSessions.ReadSession.Read | apps/tmux/tftp.c:390-400 | the buffer holds the next at most 512 octets and the cursor moves past them |
| TftpSessions.ReadSession.OnPacket | apps/tmux/tftp.c:351-420 | state and packets sent are the sender's step, every branch |
| TftpSessions.ReadSession.OnTimer | apps/tmux/tftp.c:325-347 | the block again, or error 200 and closed at the third firing |
| TftpSessions.WriteSession.constructor | apps/tmux/tftp.c:735-768 | the write session starts with block 0 acknowledged |
| TftpSessions.WriteSession.OnPacket | apps/tmux/tftp.c:423-530 | state, stored octets and packets sent are the receiver's step, every branch |
| TftpSessions.WriteSession.OnTimer | apps/tmux/tftp.c:300-322 | the last acknowledgement again, or error 200 and closed at the third firing |
| TftpSessions.SenderVerdict | apps/tmux/tftp.c:364-417 | a read session finishes exactly with the acknowledgement of its short block, goes on exactly with that of a full block or of the block before, ignores runts, and ends with an error packet on anything else; what it sends in each case |
| TftpSessions.ReceiverVerdict | apps/tmux/tftp.c:442-528 | a write session stores exactly a next block that fits and that `pwrite` takes, acknowledges the next or the last block, finishes exactly with a short block, and ends exactly on runts, other opcodes and blocks it cannot store |
| TftpTransfer.StepInv | apps/tmux/tftp.c:300-530 | every step, losses included, keeps the two sessions at most one block apart, the written octets the accepted blocks, and every packet on the way true to its block number |
| TftpTransfer.ReachedInv | apps/tmux/tftp.c:300-530 | so over every run under loss, duplication and reordering |
| TftpTransfer.EndToEndHolds | apps/tmux/tftp.c:351-530 | for at most 65535 blocks: written is a prefix of the file, includes all the sender takes as delivered, and is the file once either side finishes |
| TftpTransfer.StaleAckAtWrap | apps/tmux/tftp.c:382-408 | for any longer file, a run in which the sender finishes while the receiver still waits |
| TftpTransfer.EndToEndExactly | apps/tmux/tftp.c:351-530 | on all runs written is a prefix and a finish on either side means the whole file, iff at most 65535 blocks; the same with what the sender takes as delivered |
| TftpLossy.SenderRetries | apps/tmux/tftp.c:325-347 | over every run the sender's count is that of all its firings, and at the third it has failed |
| TftpLossy.SenderFires | apps/tmux/tftp.c:325-347 | in every run the first two firings send the current block again and change nothing else, the third sends error 200 and ends the session |
| TftpLossy.SlowTransferFails | apps/tmux/tftp.c:333-341 | a run in which a block is acknowledged after each of two firings and the third ends the session |
| TftpLossy.ReceiverRetries | apps/tmux/tftp.c:460-470 | over every run the receiver's count is that of its firings since data last came |
| TftpLossy.ReceiverFires | apps/tmux/tftp.c:300-322 | in every run the first two firings in a silence acknowledge the last block again and change nothing else, the third sends error 200 and ends the session |
| TftpLossy.OffsetCounts | apps/tmux/tftp.c:470-521 | over every run the octet count reported is that of the octets stored, in 32 bits |
| TftpLossy.CanRecover | apps/tmux/tftp.c:300-530 | from every reachable state with both sessions open and a retry left on either side some continuation completes, whatever was lost |
| TftpLossy.AllLostExactly | apps/tmux/tftp.c:300-530 | with everything on the way lost a completing continuation exists iff the transfer is complete, or both sessions are open and one has a retry left |
| TftpLossy.CanAlwaysComplete | apps/tmux/tftp.c:300-530 | if nothing is lost for good, no reachable state with the sender open and the receiver not failed is a dead end |
| Aggregation.Packer.RecvPack | apps/phbx/phb1_demo.c:168-253 | appends under the burst limit, else hands the batch out and starts a new one; the flush timer runs iff a batch is held |
| Aggregation.Packer.TimerSend | apps/phbx/phb1_demo.c:116-166 | hands out the held batch and holds none |
| Aggregation.CopyOut | apps/phbx/phb1_demo.c:313-327 | the first payload under its own header with count 1, or without header |
| Aggregation.NextHeader | apps/phbx/phb1_demo.c:333-336 | after the header overlay the packet is id, count less one, then everything from the next length on |
| Aggregation.Unpacker.Next | apps/phbx/phb1_demo.c:255-350 | drops, hands out one payload and keeps the rest, or hands out the last one whole |
| AggregationLaws.IdIsOurs | apps/phbx/phb1_demo.c:220-228 | the id the packer writes passes the unpacker's mask test |
| AggregationLaws.UnpackFirst | apps/phbx/phb1_demo.c:300-336 | one step takes a batch of n payloads to its first payload and the batch of the other n-1 |
| AggregationLaws.UnpackUndoesPack | apps/phbx/phb1_demo.c:180-350 | a batch comes apart into exactly its payloads in order, iff at most 255 and all but the last of a length in range |
| AggregationUse.BareUndoesPack | apps/phbx/phb1_demo.c:318-345 | without headers it comes apart into exactly the payloads packed, under the same condition |
| AggregationLaws.PackKeepsBatches | apps/phbx/phb1_demo.c:168-253 | each arrival extends the held batch, or closes it and opens the next; a batch of two or more is below the limit |
| AggregationLaws.StreamKeepsArrivals | apps/phbx/phb1_demo.c:116-253 | over every run of arrivals and flushes, emitted payloads followed by held ones are the arrivals |
| AggregationUse.ClosesOnlyWhenFull | apps/phbx/phb1_demo.c:184-214 | in every run an arrival makes the packer send exactly when the batch would reach the burst limit with it, else the batch grows by it |
| AggregationLaws.DeliveredInOrder | apps/phbx/phb1_demo.c:116-350 | packing, flushing and unpacking deliver every arrival once, in order |
| AggregationLaws.CountWraps | apps/phbx/phb1_demo.c:180-200 | above the bound, a run of 256 arrivals that is not delivered |
| AggregationLaws.AggregationExactly | apps/phbx/phb1_demo.c:116-350 | delivery on all runs iff the burst limit is at most 256 * (m + 2) + 2 |
| TimerQueue.InsertKeeps | apps/atimer.c:21-48 | insertion keeps deadline order, equals in insertion order, and adds exactly the timer |
| TimerQueue.UnlinkKeeps | apps/atimer.c:217-245 | unlinking removes exactly the timer and keeps the order |
| TimerQueue.StartKeeps | apps/atimer.c:186-250 | a start keeps the queue valid, and outside its own callback sets the alarm for the head |
| TimerQueue.StopKeeps | apps/atimer.c:253-296 | a stop keeps the queue valid and the alarm set |
| TimerQueue.DeleteKeeps | apps/atimer.c:299-328 | a delete keeps both; outside its own callback the timer is freed and not queued |
| TimerQueue.Settle | apps/atimer.c:85-120 | after the callback the queue is valid again with no timer in its callback |
| TimerQueue.FireWork | apps/atimer.c:64-120 | every turn of the loop, whatever its callback calls with intervals >= 1, reduces the total overdue time |
| Timers.TimerContext.Create | apps/atimer.c:156-183 | adds an idle timer |
| Timers.TimerContext.InsertSorted | apps/atimer.c:21-48 | the list walk puts the timer where the insertion function does |
| Timers.TimerContext.Start | apps/atimer.c:186-250 | the queue becomes that of the start function |
| Timers.TimerContext.Stop | apps/atimer.c:253-296 | the queue becomes that of the stop function |
| Timers.TimerContext.Delete | apps/atimer.c:299-328 | the queue becomes that of the delete function |
| Timers.TimerContext.Event | apps/atimer.c:52-132 | terminates, and leaves the queue, the callbacks' environment and the firings of the recursive specification |
| Timers.TimerContext.FireOnce | apps/atimer.c:78-120 | one turn: the head leaves, its callback runs, its flags decide what becomes of it |
| TimerLaws.EventLeavesNothingDue | apps/atimer.c:52-132 | after an event every queued deadline is later, the alarm is the head's deadline or 0, and firings were due and in deadline order |
| TimerLaws.EventKeeps | apps/atimer.c:64-120 | whatever each turn keeps, an event with any callbacks keeps |
| TimerLaws.CallbackOutcome | apps/atimer.c:85-120 | for any mix of calls in a callback: deleted over stopped over restarted over repeating over idle, with the exact next deadline and repeat |
| TimerLaws.PeriodicCatchUp | apps/atimer.c:64-120 | a periodic timer nobody calls about fires exactly floor((curr-d)/r)+1 times and stays on its grid |
| TimerCalls.StartWaits | apps/atimer.c:207-245 | started outside its callback a timer waits itv from now with the repeat interval given, the alarm is set for the head, every other timer is as before |
| TimerCalls.StopRests | apps/atimer.c:253-296 | stopped outside its callback it is not queued but still there, every other timer as before |
| TimerCalls.DeleteFrees | apps/atimer.c:299-328 | deleted outside its callback it is gone, every other timer as before |
| TimerCalls.StartedPeriodic | apps/atimer.c:52-250 | a repeating timer started at now fires in the first event exactly as often as now + itv, now + itv + irt, ... are due, and waits for the next of them |
| TimerCalls.StartedOneShot | apps/atimer.c:52-250 | one without repeat fires once if due, and then rests |
| TimerCalls.StoppedNeverFires | apps/atimer.c:253-296 | a stopped timer does not fire |
| TimerLaws.AlwaysInOrder | apps/atimer.c:21-328 | over every history of creations, calls and events the queue is sorted, holds no freed timer, and the alarm is set for its head |
| RpcClientLaws.SelfDelete | apps/sysm/sysrpc.c:134-147 | deleting a request inside its timer's callback frees the timer when the callback returns |
| RpcClient.RequestList.RequestTimeout | apps/sysm/sysrpc.c:188-217 | sent again with one retry less, or given up with a NULL callback |
| RpcClientLaws.SelfRestart | apps/sysm/sysrpc.c:214-216 | a restart inside the timer's own callback counts from the old deadline |
| RpcClientLaws.SendOnSchedule | apps/sysm/sysrpc.c:220-254 | a send lists the request, transmits it once and queues its timer one timeout ahead |
| RpcClientLaws.TurnOnSchedule | apps/sysm/sysrpc.c:188-217 | every firing, its own or another timer's, keeps a request on its schedule |
| RpcClientLaws.OwnTurn | apps/sysm/sysrpc.c:188-217 | a time-out sends the request again, or gives it up with one NULL if no retry is left or sending fails |
| RpcClientRuns.UnansweredRequest | apps/sysm/sysrpc.c:188-254 | in every run, whatever is sent, answered and called meanwhile: sent at now it times out at now + tmout, now + 2 tmout, ... without drift, for all that are due while it is listed; gone, it was transmitted once a firing and NULL was seen exactly once; if transmissions succeed that is at now + (retry + 1) tmout after exactly retry + 1 of them |
| RpcClientRuns.NullOrAnswer | apps/sysm/sysrpc.c:134-217 | over every run, failing transmissions included, each deletion is that of an answered request or goes with one NULL |
| RpcClientRuns.NothingEarly | apps/atimer.c:64-82 | over every run no timer fires before the clock shows its deadline |
| RpcClientLaws.TickLinked | apps/sysm/sysrpc.c:134-217 | an event keeps every listed request tied to a live queued timer |
| RpcClientLaws.SendLinked | apps/sysm/sysrpc.c:220-254 | a send keeps that tie |
| RpcClientLaws.RespondLinked | apps/sysm/sysrpc.c:475-494 | an answer keeps it, and one that completes the request frees both |
| RpcClientRuns.AlwaysLinked | apps/sysm/sysrpc.c:134-254 | over every run each listed request has a live, queued timer |
| RpcClientRuns.DeletedExactlyOnce | apps/sysm/sysrpc.c:134-147 | over every run deletions plus what is still listed equal what was sent, for each timer: every request is deleted at most once |
| RpcServer.RpcEndpoint.constructor | apps/sysm/sysrpc.c:520-533 | the initial key is one no request has |
| RpcServer.RpcEndpoint.SendResponse | apps/sysm/sysrpc.c:372-391 | refused with 1 or 2, or kept and sent |
| RpcServer.RpcEndpoint.ProcInput | apps/sysm/sysrpc.c:394-474 | ignored, answered again, run, or answered empty, as the specification says |
| RpcServer.RunsOncePerKey | apps/sysm/sysrpc.c:443-474 | for any frames, the services run are the requests with adjacent repeats of a key collapsed |
| RpcServer.ServesNodesExactly | apps/sysm/sysrpc.c:443-474 | at every moment the services run are each node's requests, that node's own repeats aside, iff no request is shadowed by, and no repeat interleaved with, another node's |
| RpcServer.OneNodeServed | apps/sysm/sysrpc.c:443-474 | with a single peer they always are |
| RpcServer.SecondNodeNotServed | apps/sysm/sysrpc.c:443-474 | a node's new request with the other node's key, not run |
| RpcServer.RepeatRunAgain | apps/sysm/sysrpc.c:443-474 | a retransmission after another node's request, run twice |
| RpcServer.KeptIsLastSent | apps/sysm/sysrpc.c:372-391 | the response kept after a service ran is the last one it sent |
| RpcServer.RepeatResends | apps/sysm/sysrpc.c:443-474 | each repeat, whatever came in between, is answered with exactly one response carrying the octets of the last one sent |
| RpcAnswers.AnswersTheSender | apps/sysm/sysrpc.c:331-391 | only accepted requests are answered, and only to their sender under their own number |
| RpcAnswers.UnregisteredAnswered | apps/sysm/sysrpc.c:459-473 | a new request for a service nobody registered runs nothing and is answered at once with no octets |
| RpcAnswers.FirstFinalSent | apps/sysm/sysrpc.c:372-391 | of a service's answers empty ones are sent up to the first that is neither empty nor too long, which is sent once, last, and kept |
| BroadcastAck.AckFlags.Init | apps/sysm/sysres.c:126-133 | no node awaited |
| BroadcastAck.AckFlags.OrAll | apps/sysm/sysres.c:135-144 | zero iff no node is awaited |
| BroadcastAck.AckFlags.Set | apps/sysm/sysres.c:154-161 | adds exactly that node to the awaited set |
| BroadcastAck.AckFlags.Clear | apps/sysm/sysres.c:146-152 | removes exactly that node |
| BroadcastAck.Handler.Begin | apps/sysm/sysres.c:1462-1486 | the awaited set is the snapshot of reachable configured nodes; an empty deletion finishes at once |
| BroadcastAck.Handler.Callback | apps/sysm/sysres.c:1019-1048 | a reply or the time-out changes stage, awaited set and request as the specification says |
| BroadcastAck.Handler.NodeLost | apps/sysm/sysres.c:1861-1887 | a lost node is no longer awaited |
| BroadcastAck.FlagsAreUnheard | apps/sysm/sysres.c:1019-1048 | in every interleaving the flags are exactly the snapshot nodes not heard from while the request is open |
| BroadcastAck.FinishedOnlyWhenHeard | apps/sysm/sysres.c:1827-1859 | ADD_FINISH or DEL_FINISH is reached only if every node of the snapshot has acknowledged or been lost |
| BroadcastAck.TimeoutVerdict | apps/sysm/sysres.c:1019-1048 | the time-out finishes the node iff all were heard, and fails it otherwise |
| BroadcastAck.LastReplyFinishes | apps/sysm/sysres.c:1827-1859 | for both broadcasts a reply closes the request and finishes the node iff with it everybody has been heard from |
| BroadcastAck.AllAckedFinishes | apps/sysm/sysres.c:1019-1048 | without a time-out the node is finished once everybody has acknowledged, in any interleaving with losses |
| BroadcastAck.NobodyToInform | apps/sysm/sysres.c:1805-1812 | with nobody to inform a deletion is finished at once, an addition at the first answer or the time-out |
| BroadcastAck.OpenFailure | apps/sysm/sysres.c:1019-1048 | while the request is open the node is in FAIL iff it is being added and an empty reply has come |
| BroadcastAck.FinalIffClosed | apps/sysm/sysres.c:1019-1048 | a node in FAIL stays there under all further events iff the request is closed, and can still finish iff it is open |
| BroadcastAck.FailureExactlyFinal | apps/sysm/sysres.c:1827-1859 | after any events a failure is final iff there was a time-out, and always without an empty reply to an addition |
| BroadcastAck.FailIsFinalExactly | apps/sysm/sysres.c:1019-1048 | FAIL is final in all runs of a broadcast iff it is a deletion or nobody is to be informed |
| BroadcastAck.EmptyReplyIsNotFinal | apps/sysm/sysres.c:1019-1048 | a run of three replies from FAIL to ADD_FINISH |
| ResManager.Manager.ClearNodeConfig | apps/sysm/resmgr.c:454-498 | drops exactly the valid entries that list nothing |
| ResManager.Manager.AddResConfig | apps/sysm/resmgr.c:417-447 | the tables become those of the specification |
| ResManager.Manager.DelResConfig | apps/sysm/resmgr.c:505-546 | the same |
| ResManager.Manager.AddTrsRes | apps/sysm/resmgr.c:555-657 | the same |
| ResManager.Manager.AddRcvRes | apps/sysm/resmgr.c:666-755 | the same |
| ResManager.Manager.DelTrsRes | apps/sysm/resmgr.c:765-801 | the same |
| ResManager.Manager.DelRcvRes | apps/sysm/resmgr.c:809-845 | the same |
| ResManager.Manager.DelNodeConfig | apps/sysm/resmgr.c:851-879 | the same, the deleted entry's slots read while deletions run |
| ResTables.DelResKeeps | apps/sysm/resmgr.c:505-546 | keeps the table invariant, adds nothing, and leaves the id in no list of a valid node |
| ResTables.AddTrsKeeps | apps/sysm/resmgr.c:555-657 | adding a sender keeps the table invariant |
| ResTables.AddRcvKeeps | apps/sysm/resmgr.c:666-755 | adding a receiver keeps the table invariant |
| ResTables.DelNodeKeeps | apps/sysm/resmgr.c:851-879 | deleting a node keeps the table invariant |
| ResTables.TablesStayConsistent | apps/sysm/resmgr.c:417-879 | over every run from empty tables: one transmit slot an id, one role a node, no duplicates, distinct MACs, listed ids enabled |
| ResTables.AddTrsOutcome | apps/sysm/resmgr.c:555-657 | success iff the node has a slot or an entry; then it is the only sender, else the id has none |
| ResLostSender.MoveLosesSender | apps/sysm/resmgr.c:590-647 | a run from empty tables after which moving an id from its sender to a node with full slots leaves it without one |
| ResTables.DelNodeOutcome | apps/sysm/resmgr.c:851-879 | no valid node has the MAC, and its transmitted ids are in no list |
| ResOutcomes.AddRcvOutcome | apps/sysm/resmgr.c:666-755 | success iff the id is legal and the node sends it, receives it, has a free slot or can get an entry; then the node gets it and all else is as before, otherwise everything is |
| ResOutcomes.AddTrsFrame | apps/sysm/resmgr.c:555-657 | every other id is as before, and the node no longer receives this one |
| ResOutcomes.DelTrsOutcome | apps/sysm/resmgr.c:765-801 | success iff the node sends the id; then nobody does, every other list is as before, and no entry without ids is left |
| ResOutcomes.DelRcvOutcome | apps/sysm/resmgr.c:809-845 | the same for receiving, other receivers of the id untouched |
| ResOutcomes.DelResOutcome | apps/sysm/resmgr.c:505-546 | the resource is off and in nobody's list, every other id and resource as before |
| ResOutcomes.ClearOutcome | apps/sysm/resmgr.c:454-498 | no entry without ids is left, and nobody's ids change |
| ResOutcomes.DelNodeExactly | apps/sysm/resmgr.c:851-879 | fails iff the node is unknown; else it and all it sent are gone, everything else as before |
| ResOutcomes.AddResOutcome | apps/sysm/resmgr.c:417-447 | enabled as asked for, at the position given or behind the resource before, everything else as before |
| ResOutcomes.Packed | apps/sysm/resmgr.c:434-444 | resources added in order without positions lie one behind the other from symbol 4 on, without gap or overlap, while 256 symbols suffice |
| Fragments.UiEthSend | apps/atbui.c:55-127 | refused if too long, else the message and its checksum cut into fragments |
| Fragments.SendParts | apps/atbui.c:75-127 | the loop sends exactly the recursive cut: first, middle and last types, lengths and octets |
| Fragments.UiBuffer.EthRecv | apps/atbui.c:161-226 | buffer and return code are the specification's, every branch |
| Fragments.RestArrives | apps/atbui.c:161-226 | with the first octets of a message held, the fragments of the rest complete it |
| Fragments.FragmentsArriveExactly | apps/atbui.c:55-226 | sent fragments give 1, ..., 1, 0 and exactly the message and its checksum, iff the buffer was empty or the message is long and at most 3072 octets were left |
| Fragments.AbandonedLoses | apps/atbui.c:161-226 | after n full fragments whose message ended there, a message arrives iff it needs several fragments and n < 4 |
| FragmentFaults.OneChangeRefused | apps/atbui.c:206-224 | a message of any length with any one octet changed, of text or checksum, is refused and leaves the buffer empty |
| FragmentFaults.DamagedRefused | apps/atbui.c:161-226 | so is every sequence of octets that does not check |
| FragmentFaults.HeldIsTail | apps/atbui.c:177-204 | whatever fragments come, what is held is an unbroken row of them up to the last |
| FragmentFaults.CompleteChecks | apps/atbui.c:206-224 | only a last fragment after which everything held checks is reported complete |
| Division.QuotRemAre | apps/mprint.c:27-32 | the model's quotient and remainder are those of integer division |
| Numerals.MiniItoa | apps/mprint.c:12-55 | the buffer holds sign, padding and digits, zero-terminated, in every radix to 16; a larger radix is refused |
| Numerals.WriteDigits | apps/mprint.c:28-34 | the digits backwards |
| Numerals.ReverseInPlace | apps/mprint.c:44-52 | the text turned round in place |
| Numerals.DigitsMean | apps/mprint.c:27-32 | the digits evaluate to the number |
| Numerals.PrintedTextMeans | apps/mprint.c:12-55 | a minus sign iff negative and printed signed, then digits that evaluate to the absolute value, or to the 32-bit pattern if unsigned, in the case asked for, at least zero_pad and no needless zeros |
| Numerals.ParserExact | apps/debug.c:417-479 | succeeds with v iff the text is 0, a decimal without leading zero, or 0x and hex digits, stands for v, and v fits 32 bits |
| Numerals.StatusMeans | apps/debug.c:417-479 | each of the six error statuses means exactly one kind of bad text |
| Numerals.PrintedNumbersParse | apps/debug.c:417-479 | every 32-bit number printed in decimal, or in hex behind 0x, parses back to itself |
| Bytes.U32Exact | apps/atbui.c:69-75 | a little-endian field of four octets reads back as the 32-bit value |

## Left out

- SlotGrid.Allocator.Alloc: request lengths above 30 are excluded, because the source shifts an `int` there and C leaves the result undefined.
- SlotRuns.RunInv: requests in a run ask for at least one symbol; one for none takes no cell, and two of those would be one grant.
- SlotGrid.Allocator.AllocEvery8: the status is the one the code returns, not the 0 it evidently means; the guard above says when they differ.
- Resources at fixed positions (`pos != 0` in the configuration), which bypass the bitmaps, and the checks made before an allocation.
- TftpSessions.ReadSession.Read: `pread` returns as many of 512 octets as are left and never an error, whose branch lacks a return.
- TftpSessions.WriteSession.OnPacket: a failing `pwrite` stores nothing; a successful one appends.
- TFTP request parsing, sockets, session memory, restarts of the retry timer and the texts of error packets: the two sessions start open, and a timer may fire at any moment.
- Aggregation: the header id, its mask (taken to be the high part of the octet), the burst limit and the packet limit are parameters, because the header that defines them is not part of this model.
- Aggregation.Unpacker.Next: packets shorter than what their own header declares are excluded, because the source reads past them.
- Aggregation: `recv_pack` and the flush run one after the other, as the mutex makes them, except that the source reads the held packet just before taking it; statistics counters and the success of `send` are not modelled.
- Aggregation.Packer.RecvPack: the held packet is a sequence replaced as a whole, so the capacity of its buffer is not modelled.
- TimerQueue.FireWork: callbacks use intervals of at least 1; with 0 the source's loop need not end.
- TimerLaws.AlwaysInOrder: a call on a timer already freed has no effect in the model; in the source it is the caller's error.
- Timer ticks are unbounded numbers, the hardware alarm is the recorded `tq_nxt_tick`, and an event does not run inside a callback.
- Timers.TimerContext.Callback: a callback's calls are given by its environment and do not depend on what the timer functions return; it starts, stops and deletes timers but creates none.
- RPC: request callbacks send and answer nothing and make no timer calls, other callbacks leave request timers alone, timeouts are at least one tick, and the failure of the first transmission, memory and packet building are not modelled.
- RpcServer: a service answers while it runs, not later, and the client's branch of `rpc_proc_input` is in `RpcClient.Respond`.
- BroadcastAck: one broadcast is outstanding at a time; the control node's other stages, its messages to itself and the queries before a broadcast are not modelled.
- ResTables: resource ids are 1 to 253 and 0xff for receive-all; a MAC is a number; the `get_*` queries, activation of resources and loading from flash are not modelled.
- Fragments.UiBuffer.EthRecv: a fragment shorter than it declares, or a complete message of fewer than four octets, is excluded, because the source reads outside its buffers.
- Fragments: MAC headers, the drop of a fragment by the driver, and what the configuration interface does with a message are not modelled.
- Numerals.MiniItoa: radixes 0 and 1 are excluded (division by zero and an endless loop); negating the least integer is taken to wrap.
- Numerals.ParserExact: `strtoull` is a specification written from its standard, for texts that start with a digit.
- `mini_itoa64`, `%` formatting, debug commands, the UI dispatcher, the small IP stack, device access and flash: string and device plumbing.
