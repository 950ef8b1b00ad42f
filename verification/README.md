# A verified model of OmniRPC

OmniRPC runs functions of remote executables ("rexes") for a client program.  This project
models parts of it and proves what they are for.  `dafny verify dfyconfig.toml` checks
everything.

| files | what they model |
|---|---|
| `Mxio.dfy`, `MxioSafety.dfy`, `MxioProgress.dfy`, `MxioStreams.dfy` | one socket between a client and its agent that carries the packets of up to 127 rexes: client threads, handler thread, agent and rexes as the actions of a state machine; what every reachable state satisfies; progress; what requests and replies become |
| `Knapsack.dfy`, `KnapSearch.dfy`, `KnapFrontier.dfy`, `KnapSort.dfy` | the branch-and-bound example: bound, depth-first and breadth-first search, the program around them, and the sort that the bound needs |
| `ModPower.dfy`, `Period.dfy`, `Randlc.dfy` | the random number generator of the EP example in double precision, its period, and the batches that are computed in parallel |
| `DimExpr.dfy`, `ArrayTransfer.dfy`, `Shapes.dfy`, `StreamCall.dfy` | dimension expressions, from the tree over the generated code to the stack machine; the strided transfer of arrays; the array shapes that each end of a call computes from its own scalars; calls over a stream |
| `Stream.dfy`, `ByteOrder.dfy`, `Frames.dfy`, `StubInfo.dfy`, `Xml.dfy` | buffered streams, byte orders, packet headers, interface descriptions, the XML reader and printer |
| `MpiTags.dfy`, `MpiCall.dfy`, `MpiShapes.dfy` | the MPI back end, where client and stub each count the tags of their messages, and what the shapes mean for the number of messages |
| `RpcPool.dfy`, `Accounts.dfy`, `Schedule.dfy`, `SchedulerSteps.dfy`, `MpiNodes.dfy` | the idle queue and free list of RPC objects, the accounts of the hosts, the round-robin scheduler that keeps them, its passes interleaved by threads, and the scheduler of MPI nodes |

Code that updates a structure in place is a class or an array with methods, each proved
against a function; what the structure is for is then proved about that function.  The
multiplexed connection is concurrent, so it is a state machine over values instead: one
action for each place where the program touches the socket, a lock or a rex, with every
`omrpc_fatal` branch as an outcome of its own.

Many receiving methods take ghost parameters that name what is on its way and what follows
it.  The contract then says that exactly this comes out and that exactly the rest is left.

## Main results

* Multiplexed connection: `MxioSafety.NoRunFaults`, `MxioSafety.StreamsPreserved`,
  `MxioStreams.HandedIsReceived`, `MxioStreams.HandedIsServed`, `MxioProgress.NoDeadlock`,
  `MxioProgress.ServiceIsBounded`, `MxioProgress.EveryRequestCompletes`
* Knapsack: `KnapSearch.KnapDfs`, `KnapSearch.KnapDfsRacing`, `KnapFrontier.SearchKeeps`,
  `KnapFrontier.Solve`, `KnapFrontier.SolveRacing`, `KnapSort.SortIsExact`
* Random numbers: `Randlc.FullPeriod`, `Randlc.BatchesAreTheStream`, `Randlc.RunAll`
* Dimensions and arrays: `DimExpr.CompilerIsCorrect`, with the laws of its operators,
  `DimExpr.NoStackFaults`, `ArrayTransfer.SectionIsExact`, `ArrayTransfer.SendThenReceive`,
  `ArrayTransfer.RangeCountIsExact`
* Calls: `Shapes.SharedIsExact`, `StreamCall.Call`, `StreamCall.Results`, `MpiCall.Call`, `MpiCall.Session`,
  `MpiShapes.MessagesAreExact`
* Streams and formats: `Stream.Message`, `Frames.ReadAll`, `StubInfo.StubInfoArrives`,
  `Xml.ReadWritten`, `Xml.PrintThenRead`
* Schedulers: `Accounts.AccountKept`, `Accounts.RunKeeps`, `Accounts.PassInPlainTerms`,
  `Accounts.RoundRobin`, `Schedule.Scheduler.ScheduleRpc`, `SchedulerSteps.StepSound`,
  `SchedulerSteps.StepAccount`, `SchedulerSteps.AloneIsAtomic`, `MpiNodes.MpiHost.EvictThenSpawn`, `MpiNodes.MpiHost.ScheduleRpc`

## What the code does not do

Eight properties one might expect are false.  Each comes with an input and with the exact condition
under which it holds.

* The knapsack program drops the best complete value (`Opt`) that the breadth-first phase has
  seen when that phase fills its ring (example/knap/knap-par.c:159, 182).  It prints the
  optimum if and only if an open state still leads to it (`Solve`, `SolveRacing`).  Nothing is
  lost with a breadth of 1 or 2 or of more than 2^N (`NeverForgets`); with four items and a breadth of
  3 it prints 30 instead of 35 (`ProgramForgets`, `PrintsThirty`).  `knap_dfs` alone is exact.
* The sort of the problem generator uses the index of its last selection again when only profits
  of 0 are left (example/knap/makeknap.c:98-107), so [5, 0] with equal weights ends as [0, 5]
  (`ZeroProfit`).  It ends in density order if and only if no profit is 0, all are, or that index
  was not its own place (`SortIsExact`).  The profits drawn are all positive if and only if the
  generator is told to spread them by -3n or more (`ProfitsArePositive`).
* The array transfer adds the start of dimension 0 to a `char *`, in bytes and not in
  elements (src/libomrpc/ninf_comm_lib.c:369).  The section that is moved is the declared one
  if and only if that start is 0, the elements are single bytes, or nothing is selected
  (`SectionIsExact`, `SkewedSection`).  Both sides skew alike, so they still agree.
* The count of a falling range divides by its negative step after adding it
  (src/libomrpc/ninf_comm_lib.c:317-318): ten elements taken backwards count as minus eight
  (`FallingTen`).  A count is the number of selected indices if and only if the range rises or
  holds one index (`RangeCountIsExact`).
* The generator fills an array of 20 slots without testing its index
  (src/omrpc-gen-mpi/omrpc_gen_compile.c:277-282).  It writes past the end if and only if the
  tree has 20 nodes or more (`CompileFront`, `TwentyNodes`).  It also accepts `^`, which the
  evaluator does not know (`NoStackFaults`, `PowerIsUnknown`).
* IN scalars behind the first scalar that is not IN are not sent, over a stream
  (src/libomrpc/ninf_comm_lib.c:49) as over MPI (src/libomrpc/omrpc_mpi_io.c:1117-1279).  A call
  works whenever the stub's scalars lead it to the client's shapes, sizes included
  (`StreamCall.Call`, `MpiCall.Call`).  Without expressions in the dimensions they do so, whatever
  the stub holds from earlier calls, if and only if no size, start, end or step takes a scalar that
  is not sent (`SharedIsExact`); with expressions, whose value need not depend on the scalars they
  name, it suffices that only sent scalars are used (`SettledShares`).  With one interface the client
  sends two elements, or one row, and the stub waits for four, or two rows (`UnsentScalarStarves`,
  `UnsentScalarParts`); with another the stub receives two elements into the one that it has
  allocated (`UnsentSizeOverruns`).
* A rex that replaces a killed one runs on the host that was visited last, not on the host of
  the victim (src/libomrpc/omrpc_schedule.c:89-98).  A pass keeps the counter of every host equal to
  the rexes that live there if and only if it is not a replacement for a module that some host
  other than the last used has (`AccountKept`).  `TwoOnOneHost` runs two rexes on a host of one
  slot.  The sum over all hosts is always right (`SoundKept`), and with one host the counter is
  (`OneHostRun`).  When passes of several threads interleave, the same holds of their steps, with
  the slots that threads hold counted in (`StepSound`, `StepAccount`).
* The XML reader drops the character after `<!` before it looks for `[CDATA[` or `DOCTYPE`
  (src/libomrpc/xml_reader.c:310-325), so it refuses both as they are written, `<!DOCTYPE a>` for
  one, and as `xml_node_print` prints the latter.  It reads them if and only if one more character
  stands there (`ReadWritten`, `PrintThenRead`).

The first test of `read_name` refuses only `_` (src/libomrpc/xml_reader.c:186), so a name may start
with a digit, a `:` or a `.`.

## Model

| member | source | states |
|---|---|---|
| `MxioSafety.NoRunFaults` | src/libomrpc/omrpc_io.c:207-264 | no run from the start, under any interleaving of client threads, handler, agent and rexes and any fragmentation, reaches a fatal branch, loses a packet or overwrites an acknowledgement |
| `MxioSafety.StepSafe` | src/omrpc-agent/omrpc_agent_mxio.c:75-249 | every action of every party keeps the invariant of narrow mode, agent lock, phases and byte counts, and raises no fault |
| `MxioSafety.PortStepSafe` | src/libomrpc/omrpc_rpc.c:201-257 | the same for the actions of one port: opening, invoking, asking, flushing, killing, and everything its rex does |
| `MxioSafety.RunSafe` | src/libomrpc/omrpc_io_event.c:163-194 | the same over a sequence of actions of any length, from any state of the invariant |
| `MxioSafety.HandlerMeetsItsPort` | src/libomrpc/omrpc_io.c:225-245 | while the handler reads port p every reply on the wire is for p, and at most one acknowledgement of port 0 is unconsumed |
| `MxioSafety.StreamsPreserved` | src/omrpc-agent/omrpc_agent_mxio.c:131-171 | in both directions what a port received is a prefix of the log of what was sent for it, and all of it when no request is outstanding; `MxioStreams` says what that log is |
| `MxioStreams.StepAgrees` | src/libomrpc/omrpc_io.c:293-310 | an action moves the logs of a port as its own contents say: flushes send the first unsent bytes, requests and messages join the end, replies are owed in full |
| `MxioStreams.HandedIsReceived` | src/libomrpc/omrpc_io_rw.c:59-79 | over every run, told by its actions alone: what a port has sent and still holds is, in order, the requests and messages handed to it since it was opened; what its rex has sent and still owes is its replies; a quiet port has received all of both, and as many replies, each as long, as the requests asked for |
| `MxioStreams.HandedIsServed` | src/libomrpc/omrpc_rpc.c:313-348 | so every run that is served to its end leaves each rex with exactly the requests handed over, in their order, and each client with exactly the replies |
| `MxioProgress.NoDeadlock` | src/omrpc-agent/omrpc_agent_mxio.c:189-209 | while a request is unfinished, some action that serves it is possible: narrow mode never waits for a rex that nobody feeds |
| `MxioProgress.ServiceIsBounded` | src/omrpc-agent/omrpc_agent_mxio.c:83-249 | the serving actions that can follow a state are bounded by its potential, however they are scheduled |
| `MxioProgress.InternalSpends` | src/omrpc-agent/omrpc_agent_mxio.c:221-248 | every serving action lowers that potential |
| `MxioProgress.EveryRequestCompletes` | src/libomrpc/omrpc_io_event.c:187-191 | when no serving action is left, every request is finished and every byte of it has arrived |
| `MxioSafety.OpenPortSafe` | src/libomrpc/omrpc_io_event.c:111-131 | taking a free handle slot and attaching the invoke request keeps the invariant, even over the remains of a killed rex |
| `MxioSafety.LockAndExecSafe` | src/libomrpc/omrpc_client.c:63-73 | sending EXEC under the agent lock finds handle 0 empty and keeps the invariant |
| `MxioSafety.TakeAckSafe` | src/libomrpc/omrpc_client.c:75-80 | taking the acknowledgement and releasing the lock keeps the invariant |
| `MxioSafety.AskSafe` | src/libomrpc/omrpc_rpc.c:313-348 | binding a request to an idle rex keeps the invariant |
| `MxioSafety.FlushSafe` | src/libomrpc/omrpc_io.c:293-310 | flushing one buffer as one packet keeps the invariant, in narrow mode too; which bytes it takes is said by `MxioStreams.HandedIsReceived` |
| `MxioSafety.KillRexSafe` | src/libomrpc/omrpc_rpc.c:350-358 | killing an idle rex and freeing its slot keeps the invariant |
| `MxioSafety.PeekSafe` | src/libomrpc/omrpc_io_event.c:305-339 | the peek finds a handle whose buffer holds neither received nor unsent bytes and a pending request, and handle 0 without an unconsumed acknowledgement |
| `MxioSafety.FillSafe` | src/libomrpc/omrpc_io.c:225-263 | the fill meets its own port or port 0, and port 0 has no unconsumed packet |
| `MxioSafety.ConsumeSafe` | src/libomrpc/omrpc_io_rw.c:33-57 | taking bytes from the buffer keeps the invariant |
| `MxioSafety.RoundDone` | src/libomrpc/omrpc_io.c:332-346 | when a reply has been read to its length, nothing of it is left in the buffer, on the wire or at the rex |
| `MxioSafety.NextRoundSafe` | src/libomrpc/omrpc_io.c:490-545 | the client half of the handshake, which reads one reply and asks for the next without READ_DONE, loses no byte and keeps the invariant |
| `MxioSafety.FinishSafe` | src/libomrpc/omrpc_client.c:111-134 | ending a reply loses no byte, received or unsent, sends READ_DONE and keeps the invariant |
| `MxioSafety.AgentRecvSafe` | src/omrpc-agent/omrpc_agent_mxio.c:131-171 | the packet at the head of the client queue is for an allocated rex or for the agent, and taking it keeps the invariant |
| `MxioSafety.SpawnSafe` | src/omrpc-agent/omrpc_agent_main.c:136-169 | the EXEC command binds the port, acknowledges, and keeps the invariant |
| `MxioSafety.ReadDoneSafe` | src/omrpc-agent/omrpc_agent_main.c:171-176 | READ_DONE widens the agent at a moment when nothing of the narrow session is under way |
| `MxioSafety.AgentReadSafe` | src/omrpc-agent/omrpc_agent_mxio.c:173-248 | one read of a rex becomes one packet; in narrow mode its rex exists |
| `MxioSafety.AgentEofSafe` | src/omrpc-agent/omrpc_agent_mxio.c:232-237 | end of file happens only to a killed rex, outside any reply, and may widen the agent |
| `Knapsack.BestIsUpperBound` | example/knap/knap-par.c:194-214 | the recursive optimum is at least the profit of every selection that fits |
| `Knapsack.BestIsAchieved` | example/knap/knap-par.c:194-214 | the recursive optimum is the profit of some selection that fits |
| `Knapsack.FillIsFeasible` | example/knap/knap-par.c:125-130 | the greedy fill fits, stops for a reason, and its profit is at most the optimum |
| `Knapsack.FractionalBest` | example/knap/knap-par.c:132-134 | in density order no selection beats the greedy profit plus the break density on the capacity left, in exact arithmetic |
| `Knapsack.UpperIsSound` | example/knap/knap-par.c:125-134 | greedy profit <= optimum <= greedy profit plus the floored fraction |
| `Knapsack.UpperBoundsSelections` | example/knap/knap-par.c:132-134 | the floored fraction bounds every selection that fits |
| `KnapSearch.Bound` | example/knap/knap-par.c:120-142 | prunes exactly when the incumbent beats the upper bound, and then the optimum is below it; otherwise raises the incumbent to the greedy profit |
| `KnapSearch.KnapDfs` | example/knap/knap-par.c:194-218 | in spite of pruning the incumbent ends at the larger of its old value and the subproblem optimum, and the result is that optimum unless the incumbent beats it |
| `KnapSearch.SolveByDfs` | example/knap/knap_dfs.c:37-61 | the root call returns the profit of a best selection |
| `KnapSearch.KnapDfsRacing` | example/knap/knap_dfs.c:37-61 | the result is exact whenever the subproblem holds the overall optimum, whatever the unsynchronised readings of the incumbent return, as long as none exceeds that optimum |
| `KnapFrontier.SearchKeeps` | example/knap/knap-par.c:155-182 | the optimum is never lost from Opt and the live states together, GLow never exceeds it, and a returned Opt is the optimum |
| `KnapFrontier.StateRing.Drop` | example/knap/knap-par.c:160-165 | a dead state leaves the ring, unless it is the only one |
| `KnapFrontier.StateRing.Expand` | example/knap/knap-par.c:166-177 | the take and skip states join at the end while the first leaves; the ring holds exactly the live states |
| `KnapFrontier.StateRing.Advance` | example/knap/knap-par.c:178-180 | the first state moves to its next item in place |
| `KnapFrontier.Turn` | example/knap/knap-par.c:155-181 | one turn of the loop does to the ring, Opt and GLow what one step of the search does to the list of live states |
| `KnapFrontier.KnapBfs` | example/knap/knap-par.c:144-183 | the loop over the ring computes the search on lists, and terminates by a sum of powers of 3 |
| `KnapFrontier.RootKeeps` | example/knap/knap-par.c:149-154 | from the root: a finished search has the optimum in Opt and GLow; an open one has it in Opt and the live states together, and in GLow and the live states together |
| `KnapFrontier.SearchOpen` | example/knap/knap-par.c:67-92 | the sequential loop leaves GLow exact, and returns the optimum when an open state holds it |
| `KnapFrontier.SearchOpenRacing` | example/knap/knap-par.c:68-92 | the same result for parallel calls with stale copies of GLow |
| `KnapFrontier.Solve` | example/knap/knap-par.c:48-95 | GLow ends at the optimum, and the printed value is the optimum if and only if the breadth-first phase does not forget it; otherwise it lies between what the open states have earned and what they can reach; a breadth below 1 prints -1 |
| `KnapFrontier.SolveRacing` | example/knap/knap-par.c:48-95 | the printed value is never above the optimum and is the optimum under the same condition, with parallel calls; a breadth below 1 prints -1 |
| `KnapFrontier.NeverForgets` | example/knap/knap-par.c:155-182 | nothing is forgotten with a breadth of at most 2 or of more than 2^N |
| `KnapFrontier.RoomForAll` | example/knap/knap-par.c:155-182 | a search with room for every leaf below its states ends by itself |
| `KnapFrontier.ProgramForgets` | example/knap/knap-par.c:159-165 | four items, capacity 7, breadth 3: the optimum is 35, and the open states reach 30, which one of them has |
| `KnapFrontier.PrintsThirty` | example/knap/knap-par.c:58-95 | on that input the program prints 30 |
| `KnapSort.SwapPW` | example/knap/makeknap.c:75-88 | both arrays are exchanged at the same two places |
| `KnapSort.SwapKeepsBest` | example/knap/makeknap.c:75-88 | exchanging two items does not change the optimum |
| `KnapSort.Densest` | example/knap/makeknap.c:95-105 | the inner loop finds the first item of greatest profit per weight from j on, and leaves the index alone when no profit is left there |
| `KnapSort.PickIsDensest` | example/knap/makeknap.c:98-105 | the pick has more profit per weight than every item from j up to it, and no item after it has more |
| `KnapSort.SortPW` | example/knap/makeknap.c:90-109 | for any profits and any value of the uninitialised index the arrays end as the selections on lists say, permuted; which inputs are undefined, and which items without negative profits end out of order, is exact |
| `KnapSort.SortIsExact` | example/knap/makeknap.c:90-109 | without negative profits the items end in density order if and only if no profit is 0, all are, or the index selected last was not its own place |
| `KnapSort.SortIsDefined` | example/knap/makeknap.c:93-106 | for any profits an exchange outside the arrays happens exactly when no profit is positive and the index starts outside |
| `KnapSort.SortPermutes` | example/knap/makeknap.c:90-109 | for any profits the (profit, weight) pairs are permuted |
| `KnapSort.SortKeepsBest` | example/knap/makeknap.c:90-109 | the sort does not change the optimum |
| `KnapSort.ZeroProfit` | example/knap/makeknap.c:98-107 | P = [5, 0], W = [6, 6] ends as [0, 5]: the index of the last selection is used again |
| `KnapSort.ProfitsArePositive` | example/knap/makeknap.c:51-59 | around 3n every drawn profit is positive if and only if the spread is -3n or more |
| `Period.SquarePower` | example/ep/ep.c:46-47 | for a multiplier a that is 5 mod 8, a^(2^k) is 1 plus an odd multiple of 2^(k+2), for every k |
| `Period.OrderIsExact` | example/ep/c_randdp.c:29-32 | a power of such a multiplier is 1 mod 2^(n+2) exactly when 2^n divides its exponent |
| `Period.OddCancels` | example/ep/c_randdp.c:29-32 | an odd factor cancels from a congruence modulo a power of two |
| `Period.PeriodIsExact` | example/ep/c_randdp.c:29-32 | the states after j and k steps agree mod 2^(n+2) if and only if j and k agree mod 2^n, for every n |
| `Randlc.SplitProduct` | example/ep/c_randdp.c:48-68 | the split 23/46-bit products stay below 2^47 and reduce to a*x mod 2^46 |
| `Randlc.Halves` | example/ep/c_randdp.c:51-53 | the split of a double into 23-bit halves rounds nowhere and its cast fits an int |
| `Randlc.Step` | example/ep/c_randdp.c:60-68 | one update of the seed is a*x mod 2^46, every operation exact in 53 bits |
| `Randlc.RandlcCall` | example/ep/c_randdp.c:46-71 | randlc stores a*x mod 2^46, returns it scaled into [0, 1), and for odd a and x keeps the seed odd and the result above 0 |
| `Randlc.StreamIsPower` | example/ep/c_randdp.c:29-37 | k steps multiply by the k-th power of a |
| `Randlc.FullPeriod` | example/ep/c_randdp.c:30-32 | from every odd seed the generator of EP has period exactly 2^44 |
| `Randlc.StreamStaysOdd` | example/ep/c_randdp.c:32-34 | odd a and seed stay odd for any number of steps, so no state is 0 |
| `Randlc.Vranlc` | example/ep/c_randdp.c:76-137 | y[1..n] are the next n numbers, other elements are kept, and the seed moves on by n steps |
| `Randlc.MultiplierIsPower` | example/ep/ep.c:46-47 | A is 5^13, which is 5 mod 8, and S is odd |
| `Randlc.ComputeAn` | example/ep/ep.c:122-130 | MK+1 squarings give A^(2*NK) mod 2^46, for every MK |
| `Randlc.BatchSeed` | example/ep/ep.c:157-169 | the loop gives S*an^kk mod 2^46 for every kk below 2^100, which are those it halves to zero |
| `Randlc.BatchTurn` | example/ep/ep.c:163-169 | one round of the loop multiplies and squares as the current bit says |
| `Randlc.BatchesAreTheStream` | example/ep/ep.c:140-144 | batch kk starts where the one stream is after kk batches, and ends on the start of batch kk+1 |
| `Randlc.RunBatch` | example/ep/ep.c:157-174 | a batch run alone fills x with its part of the one stream |
| `Randlc.RunAll` | example/ep/ep.c:152-174 | all batches together are the serial sequence without a gap |
| `DimExpr.TruncatedDivision` | src/libomrpc/ninf_comm_lib.c:474-572 | quotient and remainder are those of section 6.5.5 of ISO C: they make up the dividend, and the remainder has its sign and is smaller than the divisor |
| `DimExpr.Lookup` | src/omrpc-gen-mpi/omrpc_gen_compile.c:297-330 | finds the first parameter of a name |
| `DimExpr.CompileIdent` | src/omrpc-gen-mpi/omrpc_gen_compile.c:297-330 | an identifier resolves exactly to an IN scalar; everything else is reported |
| `DimExpr.CompileParamValue` | src/omrpc-gen-mpi/omrpc_gen_compile.c:297-440 | pushes the code of everything below the root, hands back the root, and reports exactly the identifiers that do not resolve |
| `DimExpr.CompileFront` | src/omrpc-gen-mpi/omrpc_gen_compile.c:284-295 | emits the postfix code with its end marker; overruns the 20 slots exactly for 20 nodes or more |
| `DimExpr.Expression.Push` | src/omrpc-gen-mpi/omrpc_gen_compile.c:277-282 | appends one pair, or writes past the end, which is recorded |
| `DimExpr.RunAppend` | src/libomrpc/ninf_comm_lib.c:474-572 | running code in two parts is running the whole |
| `DimExpr.RunTree` | src/libomrpc/ninf_comm_lib.c:474-572 | the code of a subtree leaves exactly its value on top of the stack, or stops with the fault the tree means |
| `DimExpr.CompilerIsCorrect` | src/omrpc-gen-mpi/omrpc_gen_compile.c:284-440 | evaluating the emitted code gives the value of the tree, whatever the rest of the array holds |
| `DimExpr.NoStackFaults` | src/libomrpc/ninf_comm_lib.c:450-472 | evaluating the emitted code of a tree of at most 20 nodes never over- or underflows the stack; the missing evaluator case is reached only from `^`; without `^`, with resolved names and numeric arguments, the outcome is a value or a division by zero |
| `DimExpr.PowerIsUnknown` | src/libomrpc/ninf_comm_lib.c:560-561 | `2 ^ 3` compiles, and its code stops at an operator that the evaluator does not know |
| `DimExpr.TwentyNodes` | src/omrpc-gen-mpi/omrpc_gen_compile.c:277-295 | a tree of 20 nodes is compiled past the end of the slots without an error, one of 19 is not |
| `DimExpr.ExpStack.Push` | src/libomrpc/ninf_comm_lib.c:458-464 | pushes, or stops when 20 values are there |
| `DimExpr.ExpStack.Pop` | src/libomrpc/ninf_comm_lib.c:466-472 | pops the last value, or stops when there is none |
| `DimExpr.ExpStack.Operator` | src/libomrpc/ninf_comm_lib.c:485-560 | one operator in place: by its number, which sum, difference, product, quotient, remainder, comparison or choice replaces which operands |
| `DimExpr.ExpStack.Eval` | src/libomrpc/ninf_comm_lib.c:474-572 | the loop over the array computes the stack machine on lists |
| `DimExpr.ExpStack.GetValue` | src/libomrpc/ninf_comm_lib.c:574-635 | a value is its expression, its constant, its argument or its default |
| `DimExpr.CompileThenEvaluate` | src/omrpc-gen-mpi/omrpc_gen_compile.c:284-295 | generator and run time together: the value of the tree for every tree of at most 19 nodes, the default for a missing one; the laws that follow say what the values are |
| `DimExpr.SumsAndProducts` | src/libomrpc/ninf_comm_lib.c:490-516 | by the values of the operands of emitted code: sum, product and negation, and a difference that makes up the left operand together with the right one |
| `DimExpr.Quotients` | src/libomrpc/ninf_comm_lib.c:502-513 | quotient and remainder make up the left operand, the remainder is smaller than the right one and has the sign of the left; a right operand of 0 ends the program |
| `DimExpr.Comparisons` | src/libomrpc/ninf_comm_lib.c:517-552 | each of the six comparisons is 1 or 0 as it holds of the left and the right operand |
| `DimExpr.Conditional` | src/libomrpc/ninf_comm_lib.c:553-559 | `?:` gives its second operand unless the first is 0, and then the third |
| `DimExpr.FaultsFirst` | src/libomrpc/ninf_comm_lib.c:474-572 | an operand that ends the program ends it before the operator, the left one first |
| `DimExpr.LeafValues` | src/libomrpc/ninf_comm_lib.c:574-635 | a constant is itself, a name the first parameter of that name, a float cut toward zero, and any other argument ends the program |
| `DimExpr.OperatorCodes` | include/ninf_stub_info.h:140-153 | the code of an operator is its place in the list of operators |
| `ArrayTransfer.SetArrayShape` | src/libomrpc/ninf_comm_lib.c:276-327 | byte spans, ranges and total count of every dimension; fails exactly on a bad range of a shrinking array |
| `ArrayTransfer.RangeCountIsExact` | src/libomrpc/ninf_comm_lib.c:313-324 | a range is refused exactly when it selects nothing; the count of any other is the number of selected indices if and only if the range rises or holds one index |
| `ArrayTransfer.FallingTen` | src/libomrpc/ninf_comm_lib.c:317-318 | ten elements taken backwards count as minus eight |
| `ArrayTransfer.TouchedCount` | src/libomrpc/ninf_comm_lib.c:358-376 | the transfer visits as many elements as the product of what the ranges select |
| `ArrayTransfer.ShrunkTotal` | src/libomrpc/ninf_comm_lib.c:313-326 | the total count of a shrinking array is the number of elements that its ranges select together |
| `ArrayTransfer.TotalIsSpan` | src/libomrpc/ninf_comm_lib.c:276-327 | the total count times the element size is the span of all dimensions |
| `ArrayTransfer.EmptyDimension` | src/libomrpc/ninf_comm_lib.c:320-326 | a dimension of size 0 counts as if it were not there |
| `ArrayTransfer.ProperShape` | src/libomrpc/ninf_comm_lib.c:276-327 | with 0 <= start <= end <= size and step >= 1 each dimension fits in the next |
| `ArrayTransfer.WholeShape` | src/libomrpc/ninf_comm_lib.c:276-327 | with default ranges each dimension fills the next |
| `ArrayTransfer.Channel.Move` | src/libomrpc/omrpc_io_rw.c:33-79 | moves a block between array and stream, and nothing else |
| `ArrayTransfer.SendRecvAny` | src/libomrpc/omrpc_io_rw.c:243-256 | a stride of 1 moves one block, any other one element at a time, to the same effect |
| `ArrayTransfer.RowIsBlock` | src/libomrpc/omrpc_io_rw.c:243-256 | neighbouring elements moved one by one are one block |
| `ArrayTransfer.TransArrayRec` | src/libomrpc/ninf_comm_lib.c:358-376 | the recursion in place does what the list of visited offsets says |
| `ArrayTransfer.TransArray` | src/libomrpc/ninf_comm_lib.c:335-356 | sending and receiving move exactly the same list of offsets |
| `ArrayTransfer.LastOfRow` | src/libomrpc/ninf_comm_lib.c:358-376 | the rounded-up count reaches the last index below end and no further |
| `ArrayTransfer.TouchedIsSpaced` | src/libomrpc/ninf_comm_lib.c:358-376 | the moved elements never overlap and stay inside the array, in increasing order |
| `ArrayTransfer.SendGathers` | src/libomrpc/ninf_comm_lib.c:347-356 | sending appends the visited elements in order and leaves the array |
| `ArrayTransfer.CopyIsExact` | src/libomrpc/ninf_comm_lib.c:335-345 | receiving what was sent copies exactly the visited elements and consumes exactly their bytes |
| `ArrayTransfer.WholeIsRow` | src/libomrpc/ninf_comm_lib.c:358-376 | with default ranges the recursion visits the elements of the flat array in order |
| `ArrayTransfer.WholeArrayIsFlat` | src/libomrpc/ninf_comm_lib.c:347-356 | with default ranges the bytes sent are the array |
| `ArrayTransfer.TouchedIsDeclared` | src/libomrpc/ninf_comm_lib.c:358-376 | every visited offset is a declared element less the skew of dimension 0 |
| `ArrayTransfer.DeclaredIsTouched` | src/libomrpc/ninf_comm_lib.c:358-376 | every declared element less that skew is visited |
| `ArrayTransfer.SectionIsExact` | src/libomrpc/ninf_comm_lib.c:358-376 | the transfer moves the declared section if and only if dimension 0 starts at 0, elements are single bytes, or nothing is selected: the code adds the start of dimension 0 in bytes |
| `ArrayTransfer.SkewedSection` | src/libomrpc/ninf_comm_lib.c:358-376 | one int of four from index 1: bytes 1 to 4 move instead of 4 to 7 |
| `ArrayTransfer.MovedInside` | src/libomrpc/ninf_comm_lib.c:335-356 | shrunk or not, the moved elements do not overlap and lie within total_count*elemsize bytes |
| `ArrayTransfer.ReceiveIsExact` | src/libomrpc/ninf_comm_lib.c:335-356 | an end that awaits the elements of its own shape gets enough bytes, and leaves none, if and only if the other end has sent as many elements |
| `ArrayTransfer.SendThenReceive` | src/libomrpc/ninf_comm_lib.c:335-376 | an array sent by one side arrives in the other of the same shape, shrunk or not: exactly the moved elements, inside total_count*elemsize, nothing left in the stream |
| `Stream.ChopIsExact` | src/libomrpc/omrpc_io.c:293-310 | the packets of a message are the message, none is empty, and all but the last are full |
| `Stream.FullsAppend` | src/libomrpc/omrpc_io_rw.c:59-79 | more bytes extend the last packet or complete it |
| `Stream.Handle.Flush` | src/libomrpc/omrpc_io.c:279-330 | the buffer becomes one packet; an empty one nothing |
| `Stream.Handle.Send` | src/libomrpc/omrpc_io_rw.c:59-79 | extends the message, writing a packet whenever the buffer is full |
| `Stream.Handle.SendDone` | src/libomrpc/omrpc_io.c:325-330 | ends the message: the packets written are the message cut at 1024 bytes |
| `Stream.Handle.Fill` | src/libomrpc/omrpc_io.c:177-205 | takes the next piece of the transport, or sees the end of the stream |
| `Stream.Handle.Recv` | src/libomrpc/omrpc_io_rw.c:33-57 | returns the next nbyte bytes over any pieces; fails exactly when fewer are to come |
| `Stream.Handle.RecvCmd` | src/libomrpc/omrpc_io_rw.c:88-101 | one byte, or EOF, refused exactly when the last message was not ended |
| `Stream.Handle.RecvDone` | src/libomrpc/omrpc_io.c:332-346 | idle again; what it drops is said |
| `Stream.SplitOfSent` | src/libomrpc/omrpc_io_rw.c:33-79 | receives of the sizes that were sent give back the pieces that were sent |
| `Stream.SplitKeepsBytes` | src/libomrpc/omrpc_io_rw.c:33-79 | receives of other sizes give back the same bytes |
| `Stream.SendAll` | src/libomrpc/omrpc_io_rw.c:59-79 | a sequence of sends and a send_done write the chopped concatenation |
| `Stream.RecvAll` | src/libomrpc/omrpc_io_rw.c:33-57 | a sequence of receives splits the stream by their sizes |
| `Stream.Message` | src/libomrpc/omrpc_io.c:279-346 | any sends, any non-empty fragmentation, any receive sizes of the same total: the same bytes, no empty packet, nothing left buffered |
| `ByteOrder.LoadedStored` | src/libomrpc/omrpc_io_rw.c:633-661 | a value stored and loaded in one byte order is itself |
| `ByteOrder.LowByteFirst` | src/libomrpc/omrpc_io_rw.c:633-661 | the lowest byte comes first in the little-endian order and last in the other |
| `ByteOrder.OrdersAreReversed` | src/libomrpc/omrpc_io_rw.c:633-661 | the bytes of one order reversed are those of the other |
| `ByteOrder.SwapConverts` | src/libomrpc/omrpc_io_rw.c:633-736 | swapping every item makes a received array mean what it meant to the sender |
| `ByteOrder.Exchange` | src/libomrpc/omrpc_io_rw.c:633-661 | one exchange mirrors one pair of bytes in place |
| `ByteOrder.SwapItem` | src/libomrpc/omrpc_io_rw.c:633-704 | the exchanges of one item reverse it and touch nothing else |
| `ByteOrder.Swap` | src/libomrpc/omrpc_io_rw.c:633-762 | the loop swaps every item |
| `ByteOrder.OneIsOne` | src/libomrpc/omrpc_io.c:490-545 | a short 1 reads as 1 exactly when both orders are equal |
| `ByteOrder.Handshake` | src/libomrpc/omrpc_io.c:490-545 | after the handshake both sides have set their swap flag if and only if their orders differ |
| `Frames.WireSkipsEmpty` | src/libomrpc/omrpc_io.c:370-379 | an empty packet leaves no bytes on the wire |
| `Frames.HeaderBytes` | src/libomrpc/omrpc_io.c:370-387 | the header byte by byte in both orders: the port, then the length |
| `Frames.Descriptor.ReadNbytes` | src/libomrpc/omrpc_io.c:389-404 | gathers exactly nbytes over reads of any length, or sees the end of the stream |
| `Frames.Descriptor.ReadPacket` | src/libomrpc/omrpc_io.c:348-368 | header and payload come back, across byte orders |
| `Frames.ReadAll` | src/libomrpc/omrpc_io.c:348-404 | whatever the reads deliver, the packets that were not empty come back in order and whole |
| `StubInfo.SendString` | src/libomrpc/omrpc_io_rw.c:547-554 | a name travels with its length and its NUL |
| `StubInfo.SendParamDesc` | src/libomrpc/omrpc_call.c:353-382 | writes type, mode, dimensions and their four values each with their code |
| `StubInfo.SendStubInfo` | src/libomrpc/omrpc_call.c:326-351 | writes every field in order, then the parameters |
| `StubInfo.StubBytes` | src/libomrpc/omrpc_call.c:326-382 | a description of small numbers and one parameter without dimensions, byte by byte |
| `StubInfo.RecvString` | src/libomrpc/omrpc_io_rw.c:556-561 | a sent name comes back |
| `StubInfo.StringEnds` | src/libomrpc/omrpc_io_rw.c:556-561 | a C string ends at the NUL that was sent |
| `StubInfo.RecvNumber` | src/libomrpc/omrpc_io_rw.c:181-240 | a number of another byte order is swapped on arrival; fails exactly at the end of the stream |
| `StubInfo.RecvDims` | src/libomrpc/omrpc_call.c:295-324 | the dimensions come back, for any number of them |
| `StubInfo.RecvParamDesc` | src/libomrpc/omrpc_call.c:295-324 | a parameter description comes back |
| `StubInfo.RecvStubInfo` | src/libomrpc/omrpc_call.c:251-293 | a description comes back; anything but the acknowledgement is an error |
| `StubInfo.StubInfoArrives` | src/libomrpc/omrpc_call.c:251-382 | for any byte orders, parameter counts and up to 10 dimensions, handshake and transfer give the client the description the server sent, and nothing is left over |
| `Xml.Writer.Print` | src/libomrpc/xml_reader.c:252-294 | prints an element with attributes, children and the short form of an empty one, and the other kinds of nodes |
| `Xml.Writer.PrintDocument` | src/libomrpc/xml_reader.c:252-294 | prints the roots one after another |
| `Xml.Reader.GetChar` | src/libomrpc/xml_reader.c:73-84 | the character pushed back comes first |
| `Xml.Reader.UngetChar` | src/libomrpc/xml_reader.c:86-90 | pushes one character back |
| `Xml.Reader.SkipSpace` | src/libomrpc/xml_reader.c:92-99 | finds the first character that is not a space |
| `Xml.Reader.ReadName` | src/libomrpc/xml_reader.c:182-195 | takes the longest run of name characters and leaves what ends it; a first `_` is refused |
| `Xml.Reader.ReadString` | src/libomrpc/xml_reader.c:197-210 | reads up to the quote that opened it, single or double; anything but a quote is refused |
| `Xml.Reader.ReadText` | src/libomrpc/xml_reader.c:123-164 | reads text up to the next `<` |
| `Xml.Reader.ReadValue` | src/libomrpc/xml_reader.c:173-177 | the `=` and the value, whatever the spaces around the `=` |
| `Xml.Reader.ReadAttr` | src/libomrpc/xml_reader.c:166-180 | an attribute comes back, whatever the spaces around its `=` and whichever quote |
| `Xml.Reader.ReadAttrs` | src/libomrpc/xml_reader.c:102-131 | the attributes come back with the kind of tag end, whatever the spaces before each and before that end |
| `Xml.Reader.ReadPiece` | src/libomrpc/xml_reader.c:307-370 | how much of a comment, CDATA or instruction is taken before its end is looked for again |
| `Xml.Reader.ReadComment` | src/libomrpc/xml_reader.c:313-323 | a comment ends where a piece is its end |
| `Xml.Reader.ReadUpTo` | src/libomrpc/xml_reader.c:333-376 | the text before `>`, `?>` or `]]>` fills the buffer |
| `Xml.Reader.ReadInstruction` | src/libomrpc/xml_reader.c:371-390 | an instruction comes back, as the prolog when it begins with xml |
| `Xml.Reader.ReadBang` | src/libomrpc/xml_reader.c:309-370 | comments are skipped; CDATA and DOCTYPE come back exactly when a character stands between the `!` and their key word |
| `Xml.Reader.ReadElement` | src/libomrpc/xml_reader.c:102-164 | an element in any layout is its tree and what follows it is left, unless some end tag in it has another name or some CDATA or DOCTYPE is refused: then the read fails |
| `Xml.Reader.ReadChildren` | src/libomrpc/xml_reader.c:123-164 | the children come back, up to and with the end tag, unless its name is another or one of them is refused |
| `Xml.Reader.ReadDocument` | src/libomrpc/xml_reader.c:54-71 | a document in any layout, with comments and instructions, is read as its tree if and only if nothing in it is refused |
| `Xml.ReadWritten` | src/libomrpc/xml_reader.c:54-210 | the same from the characters: any spaces before and around attributes, before tag ends and between roots, either quote not in the value, either form of an empty element |
| `Xml.ReadHost` | src/libomrpc/xml_reader.c:102-131 | `<Host name="alice" />`, the form of the documented host files, is read |
| `Xml.PieceBegins` | src/libomrpc/xml_reader.c:313-376 | a text that does not contain the end as a piece is taken up to exactly that end |
| `Xml.PlainReads` | src/libomrpc/xml_reader.c:252-294 | the printed form is one of the layouts, refused exactly when it holds a DOCTYPE |
| `Xml.PrintThenRead` | src/libomrpc/xml_reader.c:54-294 | reading what was printed gives an equal tree, for every tree of good names, values, texts and instructions, unless it holds a DOCTYPE: then the read fails |
| `Shapes.RunAgrees` | src/libomrpc/ninf_comm_lib.c:474-572 | a dimension expression over sent scalars has the same value on both sides |
| `Shapes.ValueAgrees` | src/libomrpc/ninf_comm_lib.c:574-635 | so has a dimension value of any kind |
| `Shapes.ShapeAgrees` | src/libomrpc/ninf_comm_lib.c:276-327 | so both sides compute the same sizes, starts, ends and steps |
| `Shapes.RangesMove` | src/libomrpc/ninf_comm_lib.c:292-311 | another value of one scalar changes the sizes and ranges if and only if one of them takes it |
| `Shapes.SharedIsExact` | src/libomrpc/ninf_comm_lib.c:36-145 | without expressions in the dimensions: the stub finds the client's shapes, whatever it holds from earlier calls, if and only if no size, start, end or step takes a scalar that is not sent |
| `Shapes.SettledShares` | src/libomrpc/ninf_comm_lib.c:574-635 | with expressions: the shapes are the client's when only sent scalars are used |
| `Shapes.SentByMode` | include/ninf_stub_info.h:85-105 | by the mode numbers: a scalar is sent if it and all scalars before it have an odd mode, and not if it or one before it has mode 0, 2 or 4 |
| `Shapes.ConstantRange` | src/libomrpc/ninf_comm_lib.c:292-311 | constant sizes, starts, ends and steps each come out in their own place; a missing start is 0, a missing end the size, a missing step 1 |
| `StreamCall.SendScalars` | src/libomrpc/ninf_comm_lib.c:116-192 | the scalars go out in order; the loop stops at the first that is not IN |
| `StreamCall.RecvScalars` | src/libomrpc/ninf_comm_lib.c:36-113 | the sent scalars come back and the others keep what the stub held |
| `StreamCall.SendArray` | src/libomrpc/ninf_comm_lib.c:347-356 | an array goes out as the moved elements of the shape that the sender's scalars give |
| `StreamCall.RecvArray` | src/libomrpc/ninf_comm_lib.c:335-345 | it comes back: exactly its moved elements replace those of the receiver |
| `StreamCall.SendArrays` | src/libomrpc/omrpc_call.c:177-185 | the arrays that travel go out one after another and are not changed |
| `StreamCall.RecvArrays` | src/libomrpc/omrpc_call.c:205-217 | they come back in shapes computed from the receiver's scalars, nothing is left over, and an array that is apart from those is kept |
| `StreamCall.Allocate` | src/libomrpc/omrpc_stub_lib.c:385-399 | every work array is as large as the stub's own scalars say and has room for what arrives |
| `StreamCall.StubRecvCall` | src/libomrpc/omrpc_stub_lib.c:377-407 | the stub sees the sent scalars; arrays of mode 1 and 3 arrive with exactly their moved elements and those of mode 2 do not, whenever its scalars give it the client's shapes |
| `StreamCall.Call` | src/libomrpc/omrpc_call.c:167-188 | both sides up to the worker, each with the shapes of its own scalars: by the mode numbers, which scalars and arrays the worker sees and which it does not |
| `StreamCall.Results` | src/libomrpc/omrpc_stub_lib.c:611-638 | by the mode numbers: the moved elements of an array of mode 2 or 3 replace the client's, an array of mode 1 is as it was, and nothing is left over |
| `StreamCall.MoveResults` | src/libomrpc/omrpc_stub_lib.c:611-638 | the same for the arrays that come back, in terms of what the two loops over them do |
| `StreamCall.UnsentScalarStarves` | src/libomrpc/ninf_comm_lib.c:47-49 | a size that uses an IN scalar behind one without a mode: the client sends two elements and the stub waits for four |
| `MpiTags.KthGetsKth` | src/libomrpc/omrpc_mpi_io.c:85-152 | with equal tag sequences on both sides the k-th receive gets the k-th message, however sends and receives interleave (section 3.5 of the MPI standard) |
| `MpiTags.Mp.Send` | src/libomrpc/omrpc_mpi_io.c:85-94 | a message joins the channel under its tag |
| `MpiTags.Mp.Recv` | src/libomrpc/omrpc_mpi_io.c:96-106 | takes the earliest message of its tag; waits for ever exactly when there is none |
| `MpiTags.SendStr` | src/libomrpc/omrpc_mpi_io.c:177-195 | a string uses its tag and the next |
| `MpiTags.RecvStr` | src/libomrpc/omrpc_mpi_io.c:197-215 | a sent string comes back |
| `MpiTags.SendParamDesc` | src/libomrpc/omrpc_mpi_io.c:986-1028 | sends under tags of its own, from 13 |
| `MpiTags.RecvParamDesc` | src/libomrpc/omrpc_mpi_io.c:942-984 | a sent description comes back, in step |
| `MpiTags.DimRoundTrip` | src/libomrpc/omrpc_mpi_io.c:942-1028 | the 168 ints of a dimension parse to the dimension |
| `MpiTags.SameDimension` | src/libomrpc/omrpc_mpi_io.c:942-1028 | a dimension is the same 168 integers over MPI and over a stream |
| `MpiTags.DimPlaces` | src/libomrpc/omrpc_mpi_io.c:942-1028 | size, start, end and step stand in this order, each with type, constant and code |
| `MpiTags.StubMessages` | src/libomrpc/omrpc_mpi_io.c:1030-1055 | the messages of a description of one parameter, one by one, with their tags |
| `MpiTags.SendStubBody` | src/libomrpc/omrpc_mpi_io.c:1030-1055 | sends the description under 11 tags |
| `MpiTags.RecvStubBody` | src/libomrpc/omrpc_mpi_io.c:1057-1096 | the description comes back, in step, and the tag has moved by 11 on this side, too |
| `MpiTags.ReqStubInfo` | src/libomrpc/omrpc_mpi_io.c:1098-1112 | the request moves the tag by 2 though it uses 3 |
| `MpiCall.SendRec` | src/libomrpc/omrpc_mpi_io.c:1384-1402 | every innermost row goes out under a tag of its own, in order |
| `MpiCall.RecvRec` | src/libomrpc/omrpc_mpi_io.c:1384-1402 | the rows come back in order, in step |
| `MpiCall.SendArray` | src/libomrpc/omrpc_mpi_io.c:1373-1382 | a packed array goes out under one tag, any other under one tag a row |
| `MpiCall.RecvArray` | src/libomrpc/omrpc_mpi_io.c:1361-1371 | a sent array comes back under the same tags |
| `MpiCall.SendScalars` | src/libomrpc/omrpc_mpi_io.c:1199-1279 | all scalars share one tag, a string moves it by one; the loop stops at the first scalar that is not IN |
| `MpiCall.RecvScalars` | src/libomrpc/omrpc_mpi_io.c:1117-1197 | the sent scalars come back, the others keep what the stub held, and the tag moves as on the sending side |
| `MpiCall.SendArrays` | src/libomrpc/omrpc_mpi.c:34-50 | the arrays that travel go out one after another, in shapes computed from the sender's scalars |
| `MpiCall.RecvArrays` | src/libomrpc/omrpc_stub_lib.c:353-373 | they come back in shapes, sizes included, computed from the receiver's scalars, the others are kept, and the tag is the sender's |
| `MpiCall.CallSendArgs` | src/libomrpc/omrpc_mpi.c:28-51 | command, index, scalars and arrays of a call, and the tag after them |
| `MpiCall.CallMessages` | src/libomrpc/omrpc_mpi.c:28-51 | the messages of a call of an array and a number, one by one: the number goes before the array, each under the tag it must have |
| `MpiCall.StubRecvCall` | src/libomrpc/omrpc_stub_lib.c:344-375 | the stub finds the entry, sees the sent scalars and IN arrays, and its tag is the client's, whenever its scalars give it the client's shapes |
| `MpiCall.StubEnd` | src/libomrpc/omrpc_stub_lib.c:640-653 | acknowledgement under its own tag, then the OUT arrays |
| `MpiCall.CallRecvArgs` | src/libomrpc/omrpc_mpi.c:56-81 | the OUT arrays come back, the other arguments are kept |
| `MpiCall.Call` | src/libomrpc/omrpc_mpi.c:28-81 | one call, both sides, of any interface, whenever the stub's scalars give it the client's sizes and ranges: by the mode numbers, which scalars and arrays the worker sees and which come back; tags equal, channels empty, every receive in step |
| `MpiCall.StubAnswer` | src/libomrpc/omrpc_stub_lib.c:413-453 | the first entry of the asked name or the refusal |
| `MpiCall.RecvStubInfo` | src/libomrpc/omrpc_mpi_io.c:1057-1096 | the entry or the refusal arrives, in step |
| `MpiCall.AskInfo` | src/libomrpc/omrpc_mpi_io.c:1098-1112 | one request for an interface, both sides: the answer arrives and the tags are equal |
| `MpiCall.Session` | src/libomrpc/omrpc_stub_lib.c:287-453 | from the spawn on, over any sequence of interface requests and such calls, both sides hold equal tags between exchanges, and under any interleaving of its sends and receives each side receives in order what was sent to it |
| `MpiShapes.MessagesAreExact` | src/libomrpc/omrpc_mpi_io.c:1384-1402 | for an array declared by its sizes: the stub counts as many messages as the client, whatever it holds that makes no size negative, if and only if every size but the innermost is sent |
| `MpiShapes.UnsentScalarParts` | src/libomrpc/omrpc_mpi_io.c:1199-1279 | a size that uses an IN scalar behind one without a mode: the client sends one row, the stub waits for two |
| `MpiShapes.UnsentSizeOverruns` | src/libomrpc/omrpc_stub_lib.c:353-372 | such a size beside an end of its own: both sides count the same message, and the stub receives two elements into the one it has allocated |
| `MpiShapes.ShapeVisits` | src/libomrpc/omrpc_mpi_io.c:1361-1402 | the rows of a call hold as many elements as the transfer over a stream visits in the array of those sizes and ranges |
| `RpcPool.Pool.NewRpc` | src/libomrpc/omrpc_rpc.c:78-93 | an object of the free list, or a new one, cleared, comes into use |
| `RpcPool.Pool.DeleteRpc` | src/libomrpc/omrpc_rpc.c:95-102 | an object in use goes to the front of the free list |
| `RpcPool.Pool.QueuePut` | src/libomrpc/omrpc_rpc.c:122-133 | an object in use goes to the end of the idle queue; the stale tail of an empty queue does no harm |
| `RpcPool.Pool.QueueRemove` | src/libomrpc/omrpc_rpc.c:107-119 | the object at any place leaves the queue, the others keep their order |
| `RpcPool.Pool.UnlinkHead` | src/libomrpc/omrpc_rpc.c:109-111 | the links pass the first object by |
| `RpcPool.Pool.UnlinkTail` | src/libomrpc/omrpc_rpc.c:112-114 | the links pass the last object by |
| `RpcPool.Pool.UnlinkMiddle` | src/libomrpc/omrpc_rpc.c:115-118 | the links pass an object in the middle by |
| `RpcPool.Pool.Take` | src/libomrpc/omrpc_rpc.c:138-190 | the first object of the queue that suits, and none before it does, comes into use |
| `RpcPool.IdleToBusy` | src/libomrpc/omrpc_rpc.c:107-119 | taking an object keeps every object in exactly one of queue, free list and use |
| `RpcPool.BusyToOthers` | src/libomrpc/omrpc_rpc.c:95-133 | so does giving it back or deleting it |
| `RpcPool.FreedToBusy` | src/libomrpc/omrpc_rpc.c:78-93 | so does using a freed one again |
| `Accounts.AccountKept` | src/libomrpc/omrpc_schedule.c:63-119 | an operation keeps the counter of every host equal to the executables that live there if and only if it is not a replacement for a module that some host other than the last used has |
| `Accounts.TwoOnOneHost` | src/libomrpc/omrpc_schedule.c:89-98 | two hosts of one slot, both taken: a call of a third module kills the idle executable of host 0 and runs the new one on host 1, which then runs two |
| `Accounts.FullIsReached` | src/libomrpc/omrpc_schedule.c:63-119 | that state is reached from the start by two calls and a return |
| `Accounts.LiveAfter` | src/libomrpc/omrpc_schedule.c:63-224 | what each operation does to the executables and the counter of each host |
| `Accounts.CandidateIsLast` | src/libomrpc/omrpc_schedule.c:66-84 | the candidate is the host visited last exactly when no other host has the module |
| `Accounts.AllVisited` | src/libomrpc/omrpc_schedule.c:66-84 | the circle visits every host, so a failed search means that no host can run the module |
| `Accounts.PassIsDetermined` | src/libomrpc/omrpc_schedule.c:51-120 | counters, limits, last host, queue and modules decide how a pass ends and with what state |
| `Accounts.PassInPlainTerms` | src/libomrpc/omrpc_schedule.c:51-120 | counting hosts as (last + 1 + i) mod n: a pass reuses the first suitable idle executable; else it starts one on the first host from there that has the module and a free slot; else the first host that has the module names the victim, the first of its idle executables of another module |
| `Accounts.AllocatedInPlainTerms` | src/libomrpc/omrpc_schedule.c:122-147 | the same for a pass on a given host |
| `Accounts.RoundRobin` | src/libomrpc/omrpc_schedule.c:64-84 | calls of a module that all hosts have, as long as slots are free, land on consecutive hosts mod n |
| `Accounts.SoundKept` | src/libomrpc/omrpc_schedule.c:51-224 | every operation keeps the counters within their limits and their sum equal to the live executables |
| `Accounts.RunSound` | src/libomrpc/omrpc_schedule.c:51-224 | so does every run |
| `Accounts.RunKeeps` | src/libomrpc/omrpc_schedule.c:51-224 | over a run without such a replacement every host runs as many executables as its counter says and no more than its limit |
| `Accounts.OneHostRun` | src/libomrpc/omrpc_schedule.c:51-224 | with one host that is every run |
| `Accounts.WithinLimits` | src/libomrpc/omrpc_schedule.c:165-180 | with exact counters no host runs more executables than its limit |
| `Schedule.Scheduler.AllocateJobs` | src/libomrpc/omrpc_schedule.c:165-180 | takes a slot of the host exactly when one is free |
| `Schedule.Scheduler.FindHost` | src/libomrpc/omrpc_schedule.c:64-84 | the first host (last + 1 + i) mod n that has the module and a free slot, or the first that has the module |
| `Schedule.Scheduler.TakeFirst` | src/libomrpc/omrpc_rpc.c:138-190 | the first idle executable that fits comes into use; every other keeps its place, module, size and host |
| `Schedule.Scheduler.Replace` | src/libomrpc/omrpc_schedule.c:89-98 | the first idle executable that fits is killed and a new one of the wanted module runs on the given host; every other keeps its place, module, size and host |
| `Schedule.Scheduler.StartRpc` | src/libomrpc/omrpc_schedule.c:63-119 | which host, which victim and which counter, in every case, over the whole state |
| `Schedule.Scheduler.ScheduleRpc` | src/libomrpc/omrpc_schedule.c:51-120 | the same with the reuse of an idle executable first, which is skipped exactly when none suits; `Accounts.PassInPlainTerms` says it host by host |
| `Schedule.Scheduler.CallAsync` | src/libomrpc/omrpc_rpc_lib.c:343-369 | a pass and the size that the object it gives is set to |
| `Schedule.Scheduler.AllocateOnHost` | src/libomrpc/omrpc_schedule.c:122-147 | a slot of that host, or else its first idle executable, or else a wait |
| `Schedule.Scheduler.PutIdle` | src/libomrpc/omrpc_rpc.c:193-199 | a finished executable joins the end of the queue with its module, size and host, and keeps its slot |
| `Schedule.Scheduler.DestroyHandle` | src/libomrpc/omrpc_rpc_lib.c:531-538 | the slot and the executable end together |
| `SchedulerSteps.StepSound` | src/libomrpc/omrpc_schedule.c:51-224 | passes of any threads interleave between their locked steps, and every step keeps the counters within their limits and their sum equal to the live executables and the slots that threads hold |
| `SchedulerSteps.StepAccount` | src/libomrpc/omrpc_schedule.c:51-224 | a step keeps the counter of every host exact if and only if it does not start an executable on another host than the one whose slot it takes |
| `SchedulerSteps.ScanStrays` | src/libomrpc/omrpc_schedule.c:66-93 | a replacement strays exactly when another host than the last used, as this thread has read it, has the module |
| `SchedulerSteps.RunSound` | src/libomrpc/omrpc_schedule.c:51-224 | over any interleaving the limits hold, and the sum is the number of live executables whenever no thread holds a slot |
| `SchedulerSteps.RunAccounted` | src/libomrpc/omrpc_schedule.c:51-224 | over any interleaving without a stray step the counters of the hosts are exact |
| `SchedulerSteps.AloneIsAtomic` | src/libomrpc/omrpc_schedule.c:51-120 | a pass without interference is the atomic pass |
| `SchedulerSteps.AloneOnIsAtomic` | src/libomrpc/omrpc_schedule.c:122-147 | so is a pass on a given host |
| `MpiNodes.MpiHost.TakeSame` | src/libomrpc/omrpc_rpc.c:138-153 | the first idle executable of the wanted module and size, found exactly when there is one |
| `MpiNodes.MpiHost.TakeVictim` | src/libomrpc/omrpc_rpc.c:170-190 | the first idle executable of another module or size |
| `MpiNodes.MpiHost.AllocateJobs` | src/libomrpc/omrpc_schedule.c:182-200 | takes nodes and a slot exactly when both suffice |
| `MpiNodes.MpiHost.Evict` | src/libomrpc/omrpc_mpi_client.c:348-361 | one victim is killed and its nodes are given back |
| `MpiNodes.MpiHost.MakeRoom` | src/libomrpc/omrpc_mpi_client.c:346-361 | the loop ends, kills from the front of the queue, stops as soon as enough nodes are free, and fails only with an empty queue |
| `MpiNodes.MpiHost.EvictThenSpawn` | src/libomrpc/omrpc_mpi_client.c:346-371 | succeeds if and only if the idle executables hold the missing nodes, and kills no more than needed |
| `MpiNodes.MpiHost.ScheduleRpc` | src/libomrpc/omrpc_mpi_client.c:296-378 | used nodes are 1 plus those of the live executables and never exceed the total; which of reuse, spawn, eviction, fatal error and wait happens, and when |
| `MpiNodes.MpiHost.PutIdle` | src/libomrpc/omrpc_rpc.c:193-199 | a finished call keeps its nodes |
| `MpiNodes.NodesOfPrefix` | src/libomrpc/omrpc_mpi_client.c:346-352 | the nodes of the first victims grow one victim at a time |

## Left out

Contracts that say less than one might want:

- NoRunFaults: speaks of a state machine over values; the buffers of a handle, changed in place, are the matter of `Stream.Handle`.  It assumes what the program assumes of a rex: it speaks when started or in reply to a request that has fully arrived, replies with as many bytes as its reader expects, and does not exit inside a reply; a port has one request at a time.
- EveryRequestCompletes: is about runs in which threads, agent and rexes keep being scheduled; sockets and pipes take every packet, so a full socket buffer is not modelled.
- LockAndExecSafe: an EXEC command fits in one packet, and the agent, a single thread, takes each command whole before it reads the next packet, so its own test for an empty buffer (src/omrpc-agent/omrpc_agent_mxio.c:140-141) has no outcome here; a refused submission (OMRPC_ACK_NG) is not modelled.
- AgentReadSafe: the round-robin choice among rexes is any choice, which covers it.
- KnapDfsRacing: a torn or stale reading of GLow may be any value that does not exceed the optimum; reads and writes of GLow by other threads are not modelled one by one.
- SortPW: ratios are compared exactly, not in `float`; which items with negative profits end out of order is not said.
- RandlcCall: doubles are reals with 53 significant bits, every operation proved exact; there is no rounding to model.
- CompileThenEvaluate: integers are unbounded, and a float argument is truncated from a real.
- SendThenReceive: without `shrink` ranges have 0 <= start <= end <= size and a positive step, as the transfer is meant for; a shrunk array is moved as its first total_count elements, whatever its ranges select.
- StreamCall.Call: scalars go over the stream as values; how values become bytes is the matter of `ByteOrder` and `Stream`.  Type sizes are those of a machine with 64-bit `long`.  No array is given for two OUT parameters.  Arrays of strings and files are left out, and so are work arrays that do not travel, which the stub allocates from its own scalars.
- SectionIsExact: ranges have 0 <= start <= end <= size and a positive step, as the transfer is meant for.
- SwapItem: covers items of 2, 4 and 8 bytes; the 16-byte `long double` is left out, and `long` is not swapped by the program when the orders differ.
- Reader.ReadElement: names consist of name characters and do not begin with `_`, and names, values and texts are shorter than 1024 characters without NUL, as the shared buffer wants; longer ones that are not text are reported as `Overrun`, where the program writes on.  What the reader does with text that is no layout of markup is not said beyond a tree or a failure.
- Reader.ReadInstruction: for the values "", "x" and "xm" the test for "xml" reads what the buffer held before, and the kind of node is not said.
- PrintThenRead: leaves CDATA out, which is printed without its `!` (src/libomrpc/xml_reader.c:278) and so begins an element.
- SettledShares: one way only: an expression may name an unsent scalar and still have one value, as `n - n` has.
- MessagesAreExact: is about arrays without ranges; with a start or a step, whether another value changes the number of messages depends on the values of the client.
- MpiCall.Call: where the stub finds other shapes than the client, what its receives then do is not modelled; `MessagesAreExact` says when it waits for another number of messages.  Without `shrink` a range ends within its size.  Arrays that do not travel are left out.  An array is the list of rows that its transfer visits; where the rows lie in memory is the matter of `ArrayTransfer`.  Left out are arrays of unsigned char (rank and tag are exchanged, src/libomrpc/omrpc_mpi_io.c:678-690) and of long double (its case falls through to file names, src/libomrpc/omrpc_mpi_io.c:1340-1344), file types, strided arrays of complex numbers (each step moves the whole count, src/libomrpc/omrpc_mpi_io.c:856-884) and strided strings, which are fatal.
- Session: client and stub take turns in the method; for each of the two channels, every interleaving of its sends and receives is then covered.  Tags are unbounded; the limit of 32767 and the polling of the event handler are not modelled.
- Scheduler.ScheduleRpc: is one pass without interference; `SchedulerSteps` interleaves the locked steps of many, over values.  The repetition after `omrpc_wait_jobs` waits for a signal that can be lost, so nothing is claimed about waking up.
- Scheduler.DestroyHandle: the counter of a host may go below 0 when its rexes were replaced from other hosts.
- Scheduler.CallAsync: a call through a handle, and the submission after the pass, are left out.
- MpiHost.ScheduleRpc: is one pass for a call that is not made through a handle, on the one host of the MPI back end; the sizes asked for by the module and by the caller are one number.

Not modelled:

- Sockets, processes, ssh and rsh, batch systems, Globus, select and its timeouts, logging, monitor and viewer: calls into foreign code.
- Files as arguments, call setup from C argument lists, stub tables with hash chains, registry files.
- Quantum gate wrappers, REST and Python interfaces.
- The grammar, lexer and text output of the interface compiler; expressions start as trees.
- Agent process reaping, which is not tied to the port table.
- Mutexes and conditions other than the agent lock, the I/O lock and those of the queue and the scheduler.  `SchedulerSteps` takes each of the latter's critical sections as one step; the queue methods of `RpcPool` are one section each.
- OmniRpcDestroyRequest, omrpc_request_wait_any and the fault-tolerance heartbeat.
- The acceptance-rejection loop of the EP example and its sums.
