# Verification of the course projects

Four programs of the repository are modelled and verified here in Dafny. `dafny verify dfyconfig.toml` checks everything.

**The CPU scheduler** (lab 6). The loops for first come first served, preemptive SJF, Round Robin and priority update an
array of process records. Each loop is tied to the schedule its policy stands for (`SchedSim.dfy`), and the theorems are
about schedules: SJF is optimal (`Srtf.dfy`), Round Robin is the one schedule that a rule about single time units allows
(`Dispatch.dfy`) and bounds every wait (`RoundRobin.dfy`), all work-conserving schedules finish together
(`Conserving.dfy`), and first come first served has a closed form and minimizes the largest turnaround (`Fcfs.dfy`).
`SjfLoop.dfy` has the passes of the SJF loop and says exactly when it ends. `Schedules.dfy` says what a feasible
schedule is without mentioning any policy.

**The restaurant monitor** (project 2, part 2). Customers and cooks share a mutex and two condition variables.
`Restaurant.dfy` is the state machine, with every thread's position between lock operations, waits, signals and updates,
for any numbers of cooks, customers and orders. Waiting and signalling follow IEEE Std 1003.1-2017, System Interfaces,
`pthread_cond_wait` and `pthread_cond_signal`: a signal unblocks at least one waiting thread, and safety holds with
spurious wakeups. `RestaurantSafety.dfy` has the invariants, `RestaurantProgress.dfy` freedom from deadlock and the
bound on the length of runs, `RestaurantOrders.dfy` the account of every customer's orders, and `RestaurantRecord.dfy`
the record with its linked queue, whose updates refine the steps.

**The memory allocator** (lab 8). `MmuList.dfy` has the linked lists of nodes and blocks with their loops over previous
and current node, `Mmu.dfy` the commands and the main loop over two such lists. Both are tied to sequences of regions
(`Regions.dfy`), about which the theorems are: what each line of input means (`MemoryMeaning.dfy`), the partition
invariant and the canonical form that coalescing computes (`Partition.dfy`), and the order that each policy keeps until
a coalesce, with the exact condition on the free list under which best and worst fit do what they are meant to
(`FitOrder.dfy`).

**The chat server** (project 3). `ChatRegistry.dfy` has users with their direct-message peers and rooms with their
members; a command is a plan, made by looking at the registry, and the list operations that carry it out.
`ChatLists.dfy` has the linked lists in memory, users with their chains of peers and rooms with their chains of members,
and `ChatServer.dfy` the list functions and commands as methods on them. `ChatIntegrity.dfy`, `ChatRemoval.dfy`,
`ChatCommands.dfy`, `ChatLoss.dfy` and `ChatRuns.dfy` prove what commands and runs keep and whom a message reaches, and
`ChatMeaning.dfy` and `ChatAnswers.dfy` what each command means for names, membership and peers, and what clients get to
read. `ChatLock.dfy` is the state machine of the threads with the readers-writer lock, every list operation and every
visit of a list element being a step of its own; `ChatAtomicity.dfy` and `ChatProgress.dfy` prove mutual exclusion,
atomicity, freshness of answers and progress, and `ChatSessions.dfy` carries the results about single runs over to the
interleaved ones. `rw_lock` is a binary semaphore: the last reader may release it for the first one, for which IEEE Std
1003.1-2017 gives an ordinary mutex no defined meaning.

`Sums.dfy` and `Sequences.dfy` hold what several parts share.

## Conditions

- Scheduler: arrivals are arbitrary. The SJF loop ends exactly when every burst is at least 1 and less than `INT_MAX`
  (`SjfLoop.EndsExactly`): with a burst of 0 the process is never counted, and the strict comparison passes over a burst of
  `INT_MAX` (`SjfLoop.BurstsThatHang`). Round Robin is modelled for all bursts and for quanta of at least 1. First come
  first served and priority do not sort by arrival and are modelled on any list; that their waiting times are those of a
  schedule is for positive bursts.
- Restaurant: there is at least one cook and room for one order. Every order can be allocated.
- Allocator: a request is for at least one unit and the partition is not empty, where the partition invariant is
  concerned; the operations themselves are modelled on any input.
- Chat: an orderly run (`ChatRuns.Orderly`) is one in which open connections have different sockets, room names fit
  their buffer, nobody logs in under a name of the form `guestN`, and a connection that has used `login` is not lost. The
  order of a log is that of the write sections. For threads that interleave, only this is assumed: connections that are
  open at the same time have different sockets, as accept provides, and each client's own commands are decent in the three
  other respects; that the log is orderly then follows (`ChatSessions.SessionsInOrder`).
- Each of these conditions has its exact form, for every registry that is in order (`CreateKeepsExactly`,
  `JoinKeepsExactly`, `ArriveKeepsExactly`, `ChatLoss.DropCleansExactly`), and a run that shows what goes wrong without it
  (`OverlongNameTwice`, `GuestNameStolen`, `SocketReused`, `LostAfterLogin`, `WrongUserStripped`). The first two speak of
  registries whose stored room names fit their buffer, as they do after every log at all (`NamesAlwaysFit`).

## Where comments and code disagree

- The descending insert of the allocator puts a new block before blocks of its own size
  (lab-8--memory-management-simulation/MMU/list.c:185), although its comments say after
  (lab-8--memory-management-simulation/MMU/list.c:168 and :184). The model follows the code.
- Coalescing leaves the free list in address order under every policy, although best and worst fit expect it by size
  (lab-8--memory-management-simulation/MMU/mmu.c:55-56). `FitOrder` has runs after which best fit does not take a smallest
  sufficient block and worst fit not a largest one, and says for which free lists they do.
- The clean-up after a lost connection (project-3--building-your-own-chat-service/server_client.c:98-107) looks the client up
  by its guest name, and so does not clean up after a client that has logged in; if another user goes by that name, it
  strips that user of its rooms and peers and drops the client. The model follows the code.
- The line that would return the memory of process 99999 is the one that coalesces
  (lab-8--memory-management-simulation/MMU/mmu.c:203-214), so that this process cannot return its memory
  (`MemoryMeaning.LineMeaning`).

## Model

| member | source | states |
|---|---|---|
| Srtf.SrtfOptimal | lab-6--scheduling-simulator/SchedSim/schedsim.c:46-75 | the total waiting time of preemptive SJF is at most that of every feasible preemptive schedule of the same processes |
| Srtf.Dominance | lab-6--scheduling-simulator/SchedSim/schedsim.c:46-75 | at every time, whatever set of processes is set aside in another schedule, a set no larger can be set aside under SJF so that no more work is left |
| Srtf.FewestPending | lab-6--scheduling-simulator/SchedSim/schedsim.c:46-75 | at every time SJF has no more arrived, unfinished processes than any other feasible schedule |
| Srtf.PolicyTick | lab-6--scheduling-simulator/SchedSim/schedsim.c:58-69 | a tick of SJF lowers the work left, after a suitable exchange of what is set aside, by one unless nothing is left |
| Srtf.SrtfUnique | lab-6--scheduling-simulator/SchedSim/schedsim.c:58-63 | two runs that follow the policy agree for as long as both last: the strict comparison breaks every tie |
| Srtf.SrtfIsLawful | lab-6--scheduling-simulator/SchedSim/schedsim.c:57-67 | SJF runs only processes that have arrived and are unfinished, and idles only when there is none |
| SchedSim.FindShortest | lab-6--scheduling-simulator/SchedSim/schedsim.c:56-63 | the scan finds the first of the ready processes with the least burst left, or -1 exactly when nobody is ready; it is the scan of the passes in SjfLoop |
| SjfLoop.EndsExactly | lab-6--scheduling-simulator/SchedSim/schedsim.c:55-74 | whatever the arrivals, the test of the loop comes to fail if and only if every burst is at least 1 and less than INT_MAX |
| SjfLoop.BurstsThatHang | lab-6--scheduling-simulator/SchedSim/schedsim.c:55-74 | a list of one process with a burst of 0, and one with a burst of INT_MAX, on which nobody is ever counted as complete |
| SjfLoop.PassKeeps | lab-6--scheduling-simulator/SchedSim/schedsim.c:55-74 | a pass through the body never touches a burst that cannot be served, keeps the others between 0 and the burst, and counts exactly those that have come to 0 |
| SchedSim.FindWaitingTimeSJF | lab-6--scheduling-simulator/SchedSim/schedsim.c:46-75 | whenever the loop can end it does, after as many passes as the schedule is long, having followed the policy; the records hold the waiting times of that schedule and nothing else in them has changed; no feasible schedule waits less in total |
| SchedSim.ServeRound | lab-6--scheduling-simulator/SchedSim/schedsim.c:19-31 | one pass over the list continues the cyclic dispatch that Round Robin stands for; done comes out true exactly when nobody is ready, and then time, records and remaining bursts are unchanged |
| SchedSim.FindWaitingTimeRR | lab-6--scheduling-simulator/SchedSim/schedsim.c:9-43 | the loop ends for every quantum, with the waiting times of the cyclic dispatch in the records, and that dispatch is the complete run of the rule in Dispatch; the record of a process whose burst is not positive is unchanged |
| Dispatch.RoundRobinIsRr | lab-6--scheduling-simulator/SchedSim/schedsim.c:9-43 | the schedule of the loop is the one complete schedule by this rule, and there is no other: at time 0 and after an idle unit the first ready process on the list runs; a process runs on until it is finished or has had q units in a row; then the next ready one behind it runs, in cyclic order; and nobody runs only if nobody is ready |
| Dispatch.RrUnique | lab-6--scheduling-simulator/SchedSim/schedsim.c:19-31 | two schedules by that rule agree for as long as both last |
| RoundRobin.RoundRobinIsConserving | lab-6--scheduling-simulator/SchedSim/schedsim.c:9-43 | cyclic dispatch gives everybody exactly its burst, if positive, after its arrival, idles only when no arrived process is unfinished, and ends with its last process |
| RoundRobin.WaitBound | lab-6--scheduling-simulator/SchedSim/schedsim.c:9-43 | with n processes and quantum q everybody who has a burst waits, from time 0 on, at least 0 and at most (n-1) * q * ceil(bt/q), with late arrivals and idle stretches |
| Conserving.SameFinish | lab-6--scheduling-simulator/SchedSim/schedsim.c:9-75 | any two work-conserving schedules of the same processes finish their last process at the same time |
| SchedSim.PreemptivePoliciesFinishTogether | lab-6--scheduling-simulator/SchedSim/schedsim.c:9-75 | SJF and Round Robin, for any two quanta, finish their last process at the same time |
| SchedSim.FindWaitingTime | lab-6--scheduling-simulator/SchedSim/schedsim.c:78-87 | on any list each process waits from its arrival to its start in list order; with positive bursts these are the waiting times of a feasible schedule |
| SchedSim.FindTurnAroundTime | lab-6--scheduling-simulator/SchedSim/schedsim.c:90-94 | every turnaround time becomes burst plus waiting time, and nothing else in the records changes |
| SchedSim.TurnedAroundTimes | lab-6--scheduling-simulator/SchedSim/schedsim.c:90-94 | for records with the waiting times of a schedule, the turnaround times that are filled in are the times from arrival to completion in that schedule |
| SchedSim.FindAvgTimeFcfs | lab-6--scheduling-simulator/SchedSim/schedsim.c:108-113 | with positive bursts, the records end up with the waiting and turnaround times of the schedule in list order |
| SchedSim.FindAvgTimeSjf | lab-6--scheduling-simulator/SchedSim/schedsim.c:116-121 | the records end up with the waiting and turnaround times of the complete run of SJF |
| SchedSim.FindAvgTimeRR | lab-6--scheduling-simulator/SchedSim/schedsim.c:124-129 | the records end up with the waiting and turnaround times of the complete run of the Round Robin rule |
| Fcfs.StartClosedForm | lab-6--scheduling-simulator/SchedSim/schedsim.c:78-87 | on any list, with the clock starting at 0, the start of process i is the largest of art_j + bt_j + ... + bt_(i-1) over j up to i, and some j attains it |
| SchedSim.WaitClosedForm | lab-6--scheduling-simulator/SchedSim/schedsim.c:78-87 | on any list the waiting time that the loop fills in is that start less the arrival, and nothing else in the record changes |
| Fcfs.FcfsIsFeasible | lab-6--scheduling-simulator/SchedSim/schedsim.c:78-87 | list order with idling is a feasible schedule whatever the order of the list, and waiting is start minus arrival |
| Fcfs.FcfsMinimizesMaximum | lab-6--scheduling-simulator/SchedSim/schedsim.c:78-94 | on a list sorted by arrival no feasible schedule has a smaller largest turnaround than first come, first served |
| SchedSim.FcfsIsFairest | lab-6--scheduling-simulator/SchedSim/schedsim.c:9-94 | hence on such a list its largest turnaround is at most that of SJF and of Round Robin |
| Fcfs.RearrangedSchedule | lab-6--scheduling-simulator/SchedSim/schedsim.c:132-138 | a feasible schedule of a rearranged list, read back, is a feasible schedule of the list with the same total waiting time |
| SchedSim.SortByPriority | lab-6--scheduling-simulator/SchedSim/schedsim.c:97-105 | the list is sorted by the comparator and is a rearrangement of what it was, for whichever order of ties |
| SchedSim.FindAvgTimePriority | lab-6--scheduling-simulator/SchedSim/schedsim.c:132-138 | on any list, the records end up sorted by priority and filled in as by the list-order loop over the sorted list; with positive bursts these are the waiting and turnaround times of the sorted list's schedule in list order |
| SchedSim.SjfWaitsLeast | lab-6--scheduling-simulator/SchedSim/schedsim.c:9-138 | on any list SJF waits no longer in total than Round Robin for every quantum, first come first served, and priority for every order of ties |
| SchedSim.Totals | lab-6--scheduling-simulator/SchedSim/schedsim.c:147-150 | on any list, the loop adds up the waiting times and the turnaround times in the records |
| SchedSim.TotalOfTimes | lab-6--scheduling-simulator/SchedSim/schedsim.c:147-150 | for records that hold the times of a schedule, the totals are the total waiting time of the schedule, and that plus all bursts |
| SchedSim.ComparePolicies | lab-6--scheduling-simulator/SchedSim/schedsim.c:174-215 | the four runs on the same input: each total is that of its policy's schedule, and the total under SJF is the smallest of the four, and of all feasible schedules |
| RestaurantSafety.StepKeeps | project-2--part-2---thread-synchronization-via-monitors-and-condition-variables/BENSCHILLIBOWL/BENSCHILLIBOWL.c:104-162 | every step of every thread, also a spurious wakeup, keeps the invariants of the monitor |
| RestaurantSafety.Safety | project-2--part-2---thread-synchronization-via-monitors-and-condition-variables/BENSCHILLIBOWL/BENSCHILLIBOWL.c:104-162 | in every state of every run: the size is the queue's length and at most the maximum; orders are numbered in the order in which they are queued and dequeued; every dequeued order is held by one cook or handled; a sleeping customer or cook is accounted for by somebody who will signal; a cook quits only when all orders are received and none is queued |
| RestaurantProgress.Progress | project-2--part-2---thread-synchronization-via-monitors-and-condition-variables/BENSCHILLIBOWL/BENSCHILLIBOWL.c:104-162 | in every reachable state that is not the closed restaurant some thread can take a step: no deadlock and no lost wakeup |
| RestaurantProgress.StepLowersRank | project-2--part-2---thread-synchronization-via-monitors-and-condition-variables/BENSCHILLIBOWL/main.c:61-99 | every step without spurious wakeups lowers a natural number |
| RestaurantProgress.RunsAreFinite | project-2--part-2---thread-synchronization-via-monitors-and-condition-variables/BENSCHILLIBOWL/main.c:108-151 | every run without spurious wakeups has at most an explicitly given number of steps |
| RestaurantProgress.MaximalRunsClose | project-2--part-2---thread-synchronization-via-monitors-and-condition-variables/BENSCHILLIBOWL/main.c:108-151 | every run that cannot go on has ended with every cook out, the queue empty and all expected orders handled, and main never waited in CloseRestaurant |
| RestaurantProgress.ClosedProperly | project-2--part-2---thread-synchronization-via-monitors-and-condition-variables/BENSCHILLIBOWL/BENSCHILLIBOWL.c:76-101 | a closed restaurant has freed no leftover order; the orders dequeued are 1, 2, ... up to the number expected, and they are the orders handled |
| RestaurantOrders.PlacedByEach | project-2--part-2---thread-synchronization-via-monitors-and-condition-variables/BENSCHILLIBOWL/BENSCHILLIBOWL.c:104-129 | in every state of every run, also with spurious wakeups, each customer's orders that were ever queued and those it still has to place make up its number of orders |
| RestaurantOrders.HandledForEach | project-2--part-2---thread-synchronization-via-monitors-and-condition-variables/BENSCHILLIBOWL/main.c:61-99 | when the restaurant has closed, exactly its number of orders has been handled for every customer |
| RestaurantRecord.Record.constructor | project-2--part-2---thread-synchronization-via-monitors-and-condition-variables/BENSCHILLIBOWL/BENSCHILLIBOWL.c:36-71 | a new record shows the opening state |
| RestaurantRecord.Record.IsEmpty | project-2--part-2---thread-synchronization-via-monitors-and-condition-variables/BENSCHILLIBOWL/BENSCHILLIBOWL.c:165-167 | true exactly when the linked queue holds no order |
| RestaurantRecord.Record.AddOrderToBack | project-2--part-2---thread-synchronization-via-monitors-and-condition-variables/BENSCHILLIBOWL/BENSCHILLIBOWL.c:174-182 | the walk to the last ticket links the new one behind it: the queue is what it was with the order at its end |
| RestaurantRecord.Record.AddOrder | project-2--part-2---thread-synchronization-via-monitors-and-condition-variables/BENSCHILLIBOWL/BENSCHILLIBOWL.c:110-120 | the update under the mutex refines the step of a customer at the test for a full queue: it places its numbered order, or leaves the record alone and must wait |
| RestaurantRecord.Record.GetOrder | project-2--part-2---thread-synchronization-via-monitors-and-condition-variables/BENSCHILLIBOWL/BENSCHILLIBOWL.c:137-154 | the update under the mutex refines the step of a cook at the test for an empty queue: it takes the first order, or finds that no more will come, or must wait |
| RestaurantRecord.Record.CountHandled | project-2--part-2---thread-synchronization-via-monitors-and-condition-variables/BENSCHILLIBOWL/main.c:81-93 | the update under the mutex refines the step that counts an order as handled, and tells whether it was the last |
| RestaurantRecord.Record.FreeRemaining | project-2--part-2---thread-synchronization-via-monitors-and-condition-variables/BENSCHILLIBOWL/BENSCHILLIBOWL.c:92-97 | the leftover loop visits exactly the orders that are still queued |
| MmuList.List.Link | lab-8--memory-management-simulation/MMU/list.c:126-132 | linking a node between two neighbours inserts it at that position of the list of nodes and blocks |
| MmuList.List.AddToBack | lab-8--memory-management-simulation/MMU/list.c:73-82 | the block becomes the last one |
| MmuList.List.AddToFront | lab-8--memory-management-simulation/MMU/list.c:84-88 | the block becomes the first one |
| MmuList.List.AddAscendingByAddress | lab-8--memory-management-simulation/MMU/list.c:110-133 | the block is inserted before the first one that does not start earlier |
| MmuList.List.AddAscendingByBlocksize | lab-8--memory-management-simulation/MMU/list.c:137-164 | the block is inserted before the first larger one, so after those of its own size |
| MmuList.List.AddDescendingByBlocksize | lab-8--memory-management-simulation/MMU/list.c:169-197 | the block is inserted before the first one that is no larger, so before those of its own size |
| MmuList.List.RemoveFromFront | lab-8--memory-management-simulation/MMU/list.c:254-261 | the first block is returned and taken out, or null from an empty list |
| MmuList.List.RemoveAtIndex | lab-8--memory-management-simulation/MMU/list.c:263-283 | the block at the index, or at 0 for a negative index, is returned and taken out; null and no change past the end |
| MmuList.List.CoalesceNodes | lab-8--memory-management-simulation/MMU/list.c:200-219 | the loop joins neighbours that touch exactly as merging from left to right does |
| MmuList.List.IsInBySize | lab-8--memory-management-simulation/MMU/list.c:334-342 | true exactly when some block is at least as big |
| MmuList.List.IndexBySize | lab-8--memory-management-simulation/MMU/list.c:354-364 | the index of the first block at least as big, or -1 |
| MmuList.List.IsInByPid | lab-8--memory-management-simulation/MMU/list.c:344-352 | true exactly when some block belongs to the process |
| MmuList.List.IndexByPid | lab-8--memory-management-simulation/MMU/list.c:366-376 | the index of the first block of the process, or -1 |
| Mmu.AllocateMemory | lab-8--memory-management-simulation/MMU/mmu.c:45-98 | on two separate linked lists, the request has its effect on the pair of region sequences and the lists stay separate; it fails exactly when no free block has the size, and then both lists are as before |
| Mmu.DeallocateMemory | lab-8--memory-management-simulation/MMU/mmu.c:100-130 | the same for returning the block of a process; it fails exactly when no allocated block is the process's, and then both lists are as before |
| Mmu.Drain | lab-8--memory-management-simulation/MMU/mmu.c:142-147 | the loop moves every block, in list order, to its place by address in the new list |
| Mmu.CoalesceMemory | lab-8--memory-management-simulation/MMU/mmu.c:138-156 | the returned list shows the coalesced regions and consists of new nodes and of old blocks only |
| Mmu.Simulate | lab-8--memory-management-simulation/MMU/mmu.c:174-217 | the whole run over linked lists shows what the run over region sequences gives, with no node or block shared; for proper input the partition invariant holds |
| MemoryMeaning.RequestMeaning | lab-8--memory-management-simulation/MMU/mmu.c:45-98 | on any lists: nothing changes if every free block is too small; otherwise the first that is not leaves the free list, its lower end goes to its place by address among the allocated blocks, and the rest, if any, to its place by policy in the free list |
| MemoryMeaning.ReturnMeaning | lab-8--memory-management-simulation/MMU/mmu.c:100-130 | on any lists: nothing changes if no allocated block is the process's; otherwise exactly one leaves, the first that is, none of the process's starting earlier; it goes to its place by policy in the free list, and its addresses become free |
| MemoryMeaning.LineMeaning | lab-8--memory-management-simulation/MMU/mmu.c:201-214 | a positive number asks for memory for that process, a negative one returns that of the process of the opposite number, and 0 and -99999 leave a canonical free list over the same addresses and the allocated blocks alone |
| Partition.RunKeeps | lab-8--memory-management-simulation/MMU/mmu.c:186-217 | under every policy, on a partition of at least one unit and for all inputs whose requests are for at least one unit: every address of the partition is in exactly one block and no other address in any, no block is empty, free blocks belong to nobody and allocated ones to a positive pid, and the allocated list is strictly sorted by address |
| Partition.PairwiseDisjoint | lab-8--memory-management-simulation/MMU/mmu.c:45-130 | free and allocated blocks together are pairwise disjoint and lie inside the partition |
| Partition.AllocateKeeps | lab-8--memory-management-simulation/MMU/mmu.c:45-98 | a request for at least one unit keeps the partition invariant |
| Partition.DeallocateKeeps | lab-8--memory-management-simulation/MMU/mmu.c:100-130 | returning a block keeps the partition invariant |
| Partition.FailsWhenTooBig | lab-8--memory-management-simulation/MMU/mmu.c:48-67 | a request changes nothing exactly when every free block is too small; otherwise one more block is allocated |
| Partition.CoalesceIsCanonical | lab-8--memory-management-simulation/MMU/mmu.c:138-156 | coalescing covers the same addresses, sorted by address and with a gap between neighbours |
| Partition.CanonicalUnique | lab-8--memory-management-simulation/MMU/mmu.c:138-156 | two canonical lists of the same addresses are equal |
| Partition.CoalesceDependsOnAddresses | lab-8--memory-management-simulation/MMU/mmu.c:138-156 | two free lists coalesce to the same list exactly when they cover the same addresses, whatever their order, splits and policy |
| Partition.CoalesceIdempotent | lab-8--memory-management-simulation/MMU/mmu.c:138-156 | coalescing twice is coalescing once |
| Partition.CoalesceFindsRoom | lab-8--memory-management-simulation/MMU/mmu.c:138-156 | whenever n consecutive addresses are free, coalescing yields a block of at least n |
| Partition.AllocateUndone | lab-8--memory-management-simulation/MMU/mmu.c:45-130 | for a process that holds nothing, a successful request and its return restore the allocated list, and coalescing then gives what it would have given without them |
| Partition.AllFreedIsWhole | lab-8--memory-management-simulation/MMU/mmu.c:138-156 | once nothing is allocated, coalescing gives back the one block of the start |
| FitOrder.RunKeepsOrder | lab-8--memory-management-simulation/MMU/mmu.c:86-92 | every coalesce-free run keeps the free list in the order of its policy: by age, ascending by size with older first, or descending with newer first |
| FitOrder.FirstFit | lab-8--memory-management-simulation/MMU/mmu.c:56-58 | on such runs first fit serves a request from the oldest sufficient block |
| FitOrder.BestFit | lab-8--memory-management-simulation/MMU/mmu.c:56-58 | on such runs best fit serves a request from a smallest sufficient block, the oldest among equals |
| FitOrder.WorstFit | lab-8--memory-management-simulation/MMU/mmu.c:56-58 | on such runs worst fit serves a request from a largest block, the newest among equals |
| FitOrder.TakesSmallestExactly | lab-8--memory-management-simulation/MMU/mmu.c:56-58 | on any free list, every request takes a smallest sufficient block if and only if no block comes before a smaller one, unless a block of the smaller size comes before both |
| FitOrder.TakesLargestExactly | lab-8--memory-management-simulation/MMU/mmu.c:56-58 | on any free list, every request that can be served takes a largest block if and only if the first block is a largest one |
| FitOrder.BestFitLost | lab-8--memory-management-simulation/MMU/mmu.c:138-156 | a run of four commands under best fit, the last of which coalesces, after which a request of 2 takes a block of 3 although there is one of 2 |
| FitOrder.WorstFitLost | lab-8--memory-management-simulation/MMU/mmu.c:138-156 | such a run under worst fit, after which a request of 1 takes a block of 1 although there is one of 4 |
| ChatLists.Chain.AddFirst | project-3--building-your-own-chat-service/list.c:137-141 | a new node at the head: what the chain holds comes after the new value |
| ChatLists.Chain.Unlink | project-3--building-your-own-chat-service/list.c:149-161 | the loop over the previous and the current node takes out the first node that matches, and answers whether there was one |
| ChatLists.Table.Find | project-3--building-your-own-chat-service/list.c:27-44 | the walk over the nodes stops at the first whose name or socket matches, or at null |
| ChatLists.Table.AddFirst | project-3--building-your-own-chat-service/list.c:13-20 | a new node with an empty chain at the head, which shares nothing with the nodes there are |
| ChatLists.Table.Unlink | project-3--building-your-own-chat-service/list.c:46-66 | the first matching node is unlinked from the list, and the others keep their chains |
| ChatLists.Table.Push | project-3--building-your-own-chat-service/list.c:200-204 | the entry comes first in the chain of one node, and all other nodes and chains are as before |
| ChatLists.Table.Pull | project-3--building-your-own-chat-service/list.c:219-229 | the first entry is unlinked from the chain of one node, and all other nodes and chains are as before |
| ChatServer.Server.constructor | project-3--building-your-own-chat-service/server.c:26-31 | at startup there are no users and one room, the Lobby, which is empty |
| ChatServer.Server.FindU | project-3--building-your-own-chat-service/list.c:27-35 | the first user with the name |
| ChatServer.Server.FindSocketNode | project-3--building-your-own-chat-service/list.c:37-44 | the first user with the socket |
| ChatServer.Server.InsertFirstU | project-3--building-your-own-chat-service/list.c:11-25 | a user with a new name comes first, its name cut to the buffer; a name that is taken changes nothing |
| ChatServer.Server.RemoveUserBySocket | project-3--building-your-own-chat-service/list.c:46-66 | the first user with the socket is unlinked from the linked list |
| ChatServer.Server.CreateRoom | project-3--building-your-own-chat-service/list.c:87-97 | a room with a new name comes first, its name cut to the buffer |
| ChatServer.Server.AddUserToRoom | project-3--building-your-own-chat-service/list.c:124-143 | the room is created if missing and the user becomes a member unless it is one; fails exactly when the room cannot be found even then |
| ChatServer.Server.RemoveUserFromRoom | project-3--building-your-own-chat-service/list.c:146-161 | the first entry of the user is unlinked from the chain of members; succeeds exactly for a member |
| ChatServer.Server.AddDmConnection | project-3--building-your-own-chat-service/list.c:191-213 | both users list each other first, unless one is unknown or already lists the other |
| ChatServer.Server.RemoveDmConnection | project-3--building-your-own-chat-service/list.c:215-242 | the first entry is unlinked from the chain of peers on either side |
| ChatServer.Server.IsDmConnected | project-3--building-your-own-chat-service/list.c:244-253 | whether a known user lists the socket |
| ChatServer.Server.RemoveUserFromAllRooms | project-3--building-your-own-chat-service/list.c:259-266 | the loop is one removal by name for every room in turn |
| ChatServer.Server.RemoveAllDmsForUser | project-3--building-your-own-chat-service/list.c:269-285 | the loop is one removal for every user in turn |
| ChatServer.Server.ShareRoomUsers | project-3--building-your-own-chat-service/server_client.c:53-68 | true exactly when both sockets are members of one room |
| ChatServer.Server.Arrive | project-3--building-your-own-chat-service/server_client.c:84-93 | the arrival as a whole has the effect of its plan on the registry |
| ChatServer.Server.Join | project-3--building-your-own-chat-service/server_client.c:136-139 | joining has the effect of its plan |
| ChatServer.Server.Leave | project-3--building-your-own-chat-service/server_client.c:143-149 | leaving has the effect of its plan, and the answer tells whether the client was a member |
| ChatServer.Server.Connect | project-3--building-your-own-chat-service/server_client.c:151-165 | connecting has the effect of its plan, and the answer tells whether the name was found; if it was, the client's own entry is read without a test |
| ChatServer.Server.Disconnect | project-3--building-your-own-chat-service/server_client.c:166-180 | disconnecting has the effect of its plan, and the answer tells whether the name was found; the client's own entry is read as in connecting |
| ChatServer.Server.Login | project-3--building-your-own-chat-service/server_client.c:197-204 | login has the effect of its plan |
| ChatServer.Server.Exit | project-3--building-your-own-chat-service/server_client.c:213-221 | exit and logout have the effect of their plan |
| ChatServer.Server.Drop | project-3--building-your-own-chat-service/server_client.c:98-107 | the clean-up after a lost connection has the effect of its plan |
| ChatServer.Server.Broadcast | project-3--building-your-own-chat-service/server_client.c:226-248 | the loop sends exactly the lines of the reading command Say, each with the sender's name, or its guest name if it is no user, and the text |
| ChatServer.Server.ListUsers | project-3--building-your-own-chat-service/server_client.c:189-193 | the loop yields one line to the client for each user, in order, with that user's name and socket |
| ChatServer.Server.ListRooms | project-3--building-your-own-chat-service/server_client.c:181-185 | the loop yields one line to the client for each room, in order, with that room's name |
| ChatCommands.CreateKeepsExactly | project-3--building-your-own-chat-service/list.c:87-97 | creating a room keeps the registry in order exactly when its name fits the buffer or its cut form is not in use |
| ChatMeaning.MembershipAfter | project-3--building-your-own-chat-service/server_client.c:129-221 | what each command means for membership: join adds the client to the one room, leave takes it out of the one room, exit out of all, and no command changes anything else about who is where |
| ChatMeaning.MembershipAfterArrival | project-3--building-your-own-chat-service/server_client.c:84-93 | a new client becomes a member of the Lobby, and nothing else about who is where changes |
| ChatMeaning.PeersAfter | project-3--building-your-own-chat-service/server_client.c:129-221 | what each command means for peers: connect makes the client and the user of that name each other's peers, disconnect neither, exit removes the client as anybody's peer, and no command changes anything else about who is whose peer |
| ChatMeaning.NamesAfter | project-3--building-your-own-chat-service/server_client.c:129-221 | what each command means for names: login gives the client the name, cut to its first 29 characters, exit takes the client away, and no command changes anything else about who is called what |
| ChatMeaning.NamesAfterLogin | project-3--building-your-own-chat-service/server_client.c:197-204 | login gives the client the name, cut to its first 29 characters, and leaves every other user's name alone, in any registry |
| ChatMeaning.NamesAfterArrival | project-3--building-your-own-chat-service/server_client.c:84-93 | unless a user has that name, a new client is called guest and its socket number and has no peers, and nothing changes for the others; if one has, the users stay as they are |
| ChatAnswers.UsersAnswer | project-3--building-your-own-chat-service/list.c:175-185 | the answer to users is one line to the client for each user, in order, with that user's name and the decimal of that user's socket |
| ChatAnswers.RoomsAnswer | project-3--building-your-own-chat-service/list.c:164-172 | the answer to rooms is one line to the client for each room, in order, with that room's name |
| ChatAnswers.DecimalReads | project-3--building-your-own-chat-service/list.c:181 | the decimal of a number consists of digits that stand for it, without leading zeros |
| ChatAnswers.UsersListsConnected | project-3--building-your-own-chat-service/server_client.c:189-195 | after every orderly log, the answer to users has as many lines as connections are open, and a line about every one of them and about no other |
| ChatAnswers.UsersAfterArrival | project-3--building-your-own-chat-service/server_client.c:84-93 | after an arrival the answer to users is what it was behind a line about the new guest, or what it was if a user has that name |
| ChatAnswers.UsersAfterExit | project-3--building-your-own-chat-service/server_client.c:213-221 | after an exit the answer to users is what it was without the line about the client |
| ChatAnswers.RoomsAfterCreate | project-3--building-your-own-chat-service/list.c:87-97 | after a room was created the answer to rooms is what it was behind a line with its name, cut to its first 49 characters, or what it was if there is a room of that name |
| ChatAnswers.MessageText | project-3--building-your-own-chat-service/server_client.c:228-234 | every line of a message has the name of the sender, or its guest name if it is no user, and the text |
| ChatAnswers.MessageAfterLogin | project-3--building-your-own-chat-service/server_client.c:197-234 | right after a login, what the client says reaches others under the name it logged in under, cut to its first 29 characters |
| ChatCommands.JoinKeeps | project-3--building-your-own-chat-service/server_client.c:136-139 | a live client that joins a room whose name fits keeps the registry in order and changes no user |
| ChatCommands.JoinKeepsExactly | project-3--building-your-own-chat-service/server_client.c:136-139 | joining keeps the registry in order exactly when a live client joins a room whose name fits, or when the name does not fit and its cut form is not in use |
| ChatCommands.LeaveKeeps | project-3--building-your-own-chat-service/server_client.c:143-146 | leaving keeps the registry in order and changes no user |
| ChatCommands.LoginKeeps | project-3--building-your-own-chat-service/server_client.c:197-204 | login keeps the registry in order and changes no room and no socket |
| ChatCommands.PeeringKeeps | project-3--building-your-own-chat-service/server_client.c:151-180 | connect and disconnect keep the registry in order, and change no room, socket or name |
| ChatCommands.ConnectUndone | project-3--building-your-own-chat-service/list.c:191-242 | disconnecting after a first connect restores the registry, also for a user connected to itself |
| ChatCommands.ArriveKeepsExactly | project-3--building-your-own-chat-service/server_client.c:88-93 | an arrival keeps the registry in order exactly when its socket is a user's if and only if its guest name is: that of a new socket, when nobody has taken its guest name, and that of a socket still listed, when somebody has |
| ChatLoss.DropCleansExactly | project-3--building-your-own-chat-service/server_client.c:98-107 | for every registry in order, by whom the client's guest name finds: nobody, and nothing happens, so that the client is gone only if it was no user; the client, and it is an exit; somebody else, who is stripped of rooms and peers while the client is dropped: the client is gone exactly if nobody listed it, and the registry is in order exactly if, besides, the other user had no peers |
| ChatLoss.MembershipAfterLoss | project-3--building-your-own-chat-service/server_client.c:98-107 | in every registry in order, after a lost connection whoever has the client's guest name is out of every room, the client is no user any more, and no other membership and no other user changes; if nobody has that name nothing changes |
| ChatRemoval.RoomLoop | project-3--building-your-own-chat-service/list.c:259-266 | with unique names the loop over the rooms takes the user out of every room |
| ChatRemoval.ExitKeeps | project-3--building-your-own-chat-service/server_client.c:213-221 | after exit or logout the socket occurs nowhere, the registry is in order, and the other sockets are as before |
| ChatRemoval.ExitSparesUsers | project-3--building-your-own-chat-service/server_client.c:213-221 | the other users keep their names and all their other peers |
| ChatRemoval.ExitSparesRooms | project-3--building-your-own-chat-service/server_client.c:213-221 | the rooms keep their names and all their other members |
| ChatRuns.RunKeeps | project-3--building-your-own-chat-service/list.c:124-285 | over every orderly run: sockets are unique and are those of the open connections, every member and every peer is a live user, no room lists a member twice, room names are unique, and peers list each other equally often, once, or twice for a user that is its own peer |
| ChatRuns.GoneIsNowhere | project-3--building-your-own-chat-service/server_client.c:213-221 | over every orderly run, the socket of a closed connection occurs nowhere |
| ChatRuns.GuestNameStolen | project-3--building-your-own-chat-service/server_client.c:84-93 | a login under a guest name breaks the registry when that guest arrives |
| ChatRuns.LostAfterLogin | project-3--building-your-own-chat-service/server_client.c:98-107 | when a connection is lost after a login under another name, its user is still listed afterwards |
| ChatRuns.SocketReused | project-3--building-your-own-chat-service/server_client.c:84-107 | if accept then returns that socket again, two users have it |
| ChatRuns.WrongUserStripped | project-3--building-your-own-chat-service/server_client.c:98-107 | a lost connection whose guest name another user has taken: that user is taken out of the default room, and the client is dropped but stays a member of it |
| ChatRuns.OverlongNameTwice | project-3--building-your-own-chat-service/list.c:87-97 | creating a room with an overlong name twice makes two rooms of one name |
| ChatRuns.NamesAlwaysFit | project-3--building-your-own-chat-service/list.c:87-97 | after every log, orderly or not, the room names as stored fit their buffer |
| ChatRuns.BroadcastReaches | project-3--building-your-own-chat-service/server_client.c:226-248 | a message reaches exactly the other users that are peers of the sender or share a room with it, each once, all with the same text |
| ChatRuns.BroadcastSymmetric | project-3--building-your-own-chat-service/server_client.c:226-248 | in any one state, a's message reaches b exactly when b's would reach a |
| ChatAtomicity.InnerKeeps | project-3--building-your-own-chat-service/server_client.c:27-44 | every step of a thread keeps the invariants of the lock, the registry and the answers |
| ChatAtomicity.Safety | project-3--building-your-own-chat-service/server_client.c:27-44 | they hold in every state of every run, for any number of threads: the count of readers is the number of threads between increment and decrement, and rw_lock is locked exactly while the readers or one writer hold it |
| ChatAtomicity.MutualExclusion | project-3--building-your-own-chat-service/server_client.c:27-44 | never a writer together with a reader or another writer |
| ChatAtomicity.Atomicity | project-3--building-your-own-chat-service/server_client.c:88-248 | in every state of every run the registry is what the logged writing commands make one at a time in the order in which they acquired rw_lock, up to the writer at work, and every answer is the answer in one of those states |
| ChatAtomicity.Freshness | project-3--building-your-own-chat-service/server_client.c:88-248 | the log and the answers only grow, and an answer given after some state is that of the log at that state or of a longer one: it is never computed from a state older than the start of its command |
| ChatProgress.Progress | project-3--building-your-own-chat-service/server_client.c:27-44 | whenever some thread is carrying out a command, some such thread can go on, also while a first reader waits for rw_lock and holds mutex |
| ChatProgress.StepLowersRank | project-3--building-your-own-chat-service/server_client.c:27-44 | every step of a command lowers a pair of natural numbers |
| ChatProgress.Settles | project-3--building-your-own-chat-service/server_client.c:27-44 | without new commands every run that goes on as long as it can comes to a state in which all commands are done |
| ChatProgress.QuietIsClean | project-3--building-your-own-chat-service/server_client.c:27-44 | then both locks are free, nobody is counted, and the registry shows the whole log |
| ChatSessions.SessionsInOrder | project-3--building-your-own-chat-service/server_client.c:84-248 | however the threads interleave: if open connections have different sockets and the clients' commands are decent, the log is orderly, and the sockets connected according to it are those of the threads that have arrived and not yet left |
| ChatSessions.InterleavedIntegrity | project-3--building-your-own-chat-service/server_client.c:88-248 | however such threads interleave, the registry is in order whenever nobody writes, and its users are the clients that have arrived and not yet left |
| ChatSessions.ClientIsUser | project-3--building-your-own-chat-service/server_client.c:151-180 | however such threads interleave, a client that looks at the registry for a command after its arrival is a user, so that the entries which connect and disconnect read without a test are there |
| ChatSessions.InterleavedBroadcast | project-3--building-your-own-chat-service/server_client.c:226-248 | however such threads interleave, a message goes, once each, to exactly those who are to hear it in one state of the log, which is no older than the start of the command |
| ChatSessions.InterleavedListing | project-3--building-your-own-chat-service/server_client.c:189-195 | however such threads interleave, an answer to users lists exactly the clients that are connected in one state of the log, which is no older than the start of the command |

## Left out

- SchedSim.FindWaitingTimeRR: requires that the quantum is at least 1; otherwise the loop would go on without end as soon as somebody is ready.
- ChatServer.Server.Connect: requires that the client is a user if the name is found, because the source then reads the client's entry without a test (project-3--building-your-own-chat-service/server_client.c:160); `ChatSessions.ClientIsUser` shows that it is one, and the plan of `Perform` does nothing otherwise.
- ChatServer.Server.Disconnect: the same (project-3--building-your-own-chat-service/server_client.c:175).
- ChatServer.Server.ListUsers: the answer is a sequence of lines, not a buffer of 4096 characters that cuts off what does not fit, and without the prompt behind the last line.
- ChatServer.Server.ListRooms: the same.
- ChatSessions.SessionsInOrder: that open connections have different sockets is assumed of accept, and that commands are decent of the clients; what happens otherwise is shown for single commands and short runs.
- Mmu.AllocateMemory: the tests for a missing index or block after the list was found to hold one (lab-8--memory-management-simulation/MMU/mmu.c:58-67) are not in the model, where they are dead branches; likewise in Mmu.DeallocateMemory.
- The chat server's lists are in memory where one command runs at a time; the state machine of its threads has the same lists as sequences.
- Sorting by priority is an insertion sort in place of the library's qsort; only that the result is sorted and a rearrangement is used.
- Integers are unbounded: overflow of times, sizes and counters is not modelled. Socket numbers are those of a 32-bit int.
- Allocation always succeeds, and freeing memory is not modelled.
- File parsing, command lines, printing and the floating-point averages of the scheduler and the allocator.
- Socket setup, send, recv, splitting a line into words, the help command, and the shutdown on SIGINT of the chat server; that a send may fail.
- The allocator's list functions that its simulation does not call: insertion at an index, removal from the back, length, lookup by value; the front of a list, which is defined twice.
- The menu, the sleeping times and the printed messages of the restaurant, and the count of orders it prints outside the mutex.
- The linked lists of labs 1 and 4, the function pointers of lab 5, the matrix workers of lab 7, the bank accounts of lab 3 and project 2 part 1, and the shell, pipe and signal labs.
