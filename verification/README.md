# PUMA: a model and its proofs

PUMA is a NUMA-aware allocator. Every thread owns a doubly linked list of fixed-size blocks (nodes). A node
holds an array of elements of one size and a bit mask of its free slots. This project models the parts of PUMA
that work on that shared state and proves what they promise one another:

- `Bits`, `PackedMask`: the mask packed into 64-bit words, against sequences of booleans.
- `Layout`, `Addresses`: how many elements fit a block, and the arithmetic between elements, slots and blocks, on
  natural addresses and on the 64-bit words that the code masks.
- `ListModel`, `Compaction`, `Allocation`, `KernelWalk`, `Transfer`: the operations as functions on abstract
  lists. `ListModel.W` is the invariant of a list: active nodes come first and are numbered in order, inactive
  ones are empty, `tail` is the last active node or else the inactive head, counters match used bits, nothing is
  used above a node's watermark, a node that is not dirty has no holes, and every active node before the tail is
  full or dirty.
- `ThreadLists`, `TransferNodes`, `LoadBalancer`: the same operations as methods on linked objects. `Valid()`
  ties the links, masks, arrays and counters of a list to its abstract value `st`; each method is proved to do to
  `st` what its function says, so that the theorems about the functions hold of the objects.
- `Places`: which elements keep their place in these operations, as their owners hold addresses.
- `RunTimes`, `Balance`: the ring of run times, the targets computed from it, and the matching of surplus and
  deficit lists with two stacks.
- `Runs`: arbitrary finite sequences of operations on all lists of a set, refining a multiset per list.
- `BarrierSpec`, `Barrier`, `Pool`, `KernelLists`: the hand-written barrier, the fork/join pool and the phases of
  a parallel pass, as step systems over all interleavings.

An element's address is modelled as its node and slot; `Layout` proves that the two determine each other. The
bytes of an element are an opaque value, a kernel is any function of an element and the thread's extra data, and
the bytes of a new block are arbitrary. Times are reals and the time a pass took is an input. Where `size_t`
arithmetic can wrap in the modelled code (the guard of the loop over a node) it does so in the model; in all other
places the subtractions are proved not to.

`pumalloc` has a limit, which the code does not document: on a list that is *stranded* (`Allocation.Stranded`:
empty tail with its watermark at the end, empty predecessor) compaction switches both nodes off and only the tail
is switched on again. `PumallocKeepsW` states the invariant with that condition in both directions,
`StrandedHidesElement` says what goes wrong, and `StrandedIsReachable` gives a sequence of operations that leads there.

## Model

| member | source | states |
|---|---|---|
| PackedMask.Bitmask.Get | src/internal/bitmask.c:20-28 | Reads one bit of the packed words; it is 1 exactly when that place of the abstract sequence of booleans is true. |
| PackedMask.Bitmask.Set | src/internal/bitmask.c:9-18 | The or and the and-not on one 64-bit word change exactly one boolean of the whole sequence, to the low bit of the value. |
| PackedMask.Bitmask.constructor | src/internal/bitmask.c:123-133 | All booleans equal the low bit of the initial value, whatever the number of elements, including a partial last word. |
| PackedMask.Bitmask.FirstIndexOfValue | src/internal/bitmask.c:39-78 | The search that skips words returns the least index holding the value, and reports absence exactly when no index holds it. |
| PackedMask.Bitmask.LastIndexOfValue | src/internal/bitmask.c:80-121 | The backward search returns the greatest index holding the value, and reports absence exactly when no index holds it. |
| PackedMask.SkippedBucket | src/internal/bitmask.c:57-62 | A word that the masked comparison skips holds the value at none of its leading n places: the skip loses nothing. |
| Layout.CapacityIsMaximal | src/internal/bitmask.c:139-151 | For any sizes, m elements and their mask fit the array if and only if m is at most the computed capacity, plus one exactly when the remainder is one element and one mask word. |
| Layout.NextOverflows | src/internal/bitmask.c:139-151 | One more element than the computed capacity does not fit, except for that remainder, where one more fits and two more do not. |
| Layout.LayoutCheckHoldsIff | src/internal/bitmask.c:139-157 | The assertion at line 157 holds if and only if the remainder is below the element size or above element size plus one mask word. |
| Layout.CapacityPositiveIff | src/internal/pumanode.c:128-139 | A block holds an element if and only if its array exceeds one element plus one mask word; the size check at line 129 is weaker. |
| Layout.OneElementArrayGetsNone | src/internal/pumanode.c:128-139 | For every element size there is an array that passes the size check and could hold one element, but gets capacity 0 and fails the assertion of the layout: 8040 bytes for elements of 8032, for one. |
| Layout.CheckedMeansRoom | src/internal/pumanode.c:128-139 | A block that passes both the size check and the assertion of the layout holds an element. |
| Layout.AddressRoundTrip | src/internal/pumautil.c:48-73 | For any byte of any slot, subtracting the remainder of its address by the block size gives the base of its block and dividing gives its slot number. |
| Layout.MaskingRecoversBase | src/internal/pumautil.c:66-73 | In 64-bit arithmetic, clearing the low bits recovers an aligned base from any address inside its power-of-two block. |
| Addresses.MaskingIsSubtracting | src/internal/pumautil.c:66-73 | On the 64 bits of any address and for any power-of-two block size, masking with the complement of size - 1 is subtracting the remainder. |
| Addresses.WordRoundTrip | src/internal/pumautil.c:48-73 | Hence masking the word that holds the address of any byte of any slot gives the block's base, and dividing gives the slot number. |
| Layout.SlotInsideBlock | src/internal/pumautil.c:57-64 | Every slot below the capacity ends inside its block. |
| Layout.SlotsDisjoint | src/internal/pumautil.c:57-64 | No byte belongs to two slots, of one block or of two. |
| Layout.AddressOrder | src/internal/pumanode.c:40 | On one node, comparing element addresses is comparing slot numbers. |
| Compaction.AllocFacts | src/internal/alloc.c:11-32 | Taking a free slot of an active node keeps the list invariant. |
| Compaction.FreeFacts | src/internal/free.c:11-37 | Releasing a live slot keeps the list invariant, the number of active nodes, and all contents but that one element, although inactive successors may be dropped. |
| Places.FreePlaces | src/internal/free.c:11-37 | Exactly the released slot goes out of use and every other live element keeps its place and bytes; the node becomes the last one if and only if it was or it is now less than half full and its successor is inactive. |
| Compaction.DropFacts | src/internal/free.c:31-36 | Forgetting everything behind a node whose successor is inactive loses no element and keeps the invariant. |
| Compaction.TrimFacts | src/internal/pumautil.c:7-39 | _getLastElement only switches off trailing empty nodes, and what it finds is the last used slot of the whole list; it finds none exactly when no node stays active. |
| Compaction.TrimBag | src/internal/pumautil.c:16-36 | The trimming keeps the contents of the list. |
| Compaction.MoveKeeps | src/internal/pumanode.c:45-49 | Moving the last element into a hole keeps the invariant, the active nodes and the multiset of contents. |
| Compaction.CleanupFacts | src/internal/pumanode.c:19-54 | _cleanupNode ends for every list in order but for this node; the invariant then holds for all nodes, the multiset of contents is unchanged, earlier nodes are untouched except for trailing empty ones switched off, and the node is a full prefix or nothing after it holds an element. |
| Places.CleanupPlaces | src/internal/pumanode.c:30-49 | The elements that compaction moves are the last ones in list order: everything up to the last slot in use afterwards stays in its place with its bytes, and slots come into use on the compacted node only. |
| Allocation.PumallocAddsOne | src/pumalloc.c:13-40 | The slot returned lies inside its node, was free once room had been made, and the contents are the old ones plus exactly that element, whether the watermark is bumped, the tail compacted, an inactive node reused or a block appended. |
| Places.PumallocPlaces | src/pumalloc.c:13-40 | Which slot pumalloc returns and which elements move: with room and the watermark below the end the slot is the tail's watermark and nothing moves; with the watermark at the end it is the tail's count, and only elements of the tail at or above its count move, into holes below; with a full tail it is on the next node, and nothing moves. |
| Places.PumallocGrows | src/internal/pumanode.c:94-232 | The list gets a new block if and only if it has none or its tail is full and nothing follows it; otherwise an inactive block is reused. |
| Allocation.PumallocKeepsW | src/pumalloc.c:13-40 | The list invariant holds after pumalloc if and only if the list was not stranded: empty tail with its watermark at the end and an empty predecessor. |
| Allocation.StrandedHidesElement | src/pumalloc.c:23-32 | On a stranded list the new element ends up behind an inactive node: the leading active nodes, where a traversal ends, stop before its node. |
| Allocation.CompactionStrands | src/pumalloc.c:21-28 | When the tail is compacted to make room, all nodes before it stay active if and only if the list was not stranded. |
| KernelWalk.ReachesAllIff | src/pumakernel.c:14-37 | The loop over a node reaches all of its live elements if and only if its used slots are a prefix. |
| KernelWalk.StepFacts | src/pumakernel.c:54-64 | After a node has been compacted and worked on, all nodes up to it are full, or no later node holds an element. |
| KernelWalk.WalkFacts | src/pumakernel.c:39-64 | From any node on, what the traversal hands to the kernel is exactly the multiset of elements still to come, and the list then reads what the kernel returned. |
| KernelWalk.RunKernelVisitsAll | src/pumakernel.c:39-64 | One pass hands every live element to the kernel exactly once and nothing else, although dirty nodes are compacted on the way and the loop stops on a count; the invariant and the count hold afterwards. |
| Places.PassPlaces | src/pumakernel.c:39-64 | A pass moves elements only by compacting, from the end of the list, and hands them to the kernel in list order as they then stand, changing nothing but bytes besides; if no node up to the last element is dirty it moves none and changes no count, flag or link, whatever empty nodes follow. |
| ThreadLists.Node.RunKernelOnNode | src/pumakernel.c:14-37 | With the wrapping subtraction of the loop guard, the method replaces exactly the leading used slots by the kernel's results, in order, and adds their number to elementsDone. |
| ThreadLists.ThreadList.constructor | include/internal/pumathreadlist.h:11-33 | A zeroed list is valid and empty for all sizes; its blocks get the laid-out capacity, which is positive if and only if the array exceeds one element and one mask word. |
| ThreadLists.ThreadList.AllocElementOnNode | src/internal/alloc.c:11-32 | On the linked nodes, with the asserts as obligations, exactly one slot of the abstract list becomes used. |
| ThreadLists.ThreadList.FreeElementOnNode | src/internal/free.c:11-37 | On the linked nodes: the slot becomes free, and after unlinking the inactive successor the remaining links are again mutually inverse. |
| ThreadLists.ThreadList.FreePumaNode | src/internal/pumanode.c:234-248 | Head, tail and both neighbours are redirected around the node, and nothing else is written. |
| ThreadLists.ThreadList.DropSuccessor | src/internal/free.c:31-36 | Dropping the inactive successor leaves a valid list that ends at this node, with tail redirected when it was the dropped node. |
| ThreadLists.ThreadList.GetLastElement | src/internal/pumautil.c:7-39 | The loop over tail and prev returns the node and slot of the abstract search and leaves the list trimmed as it says. |
| ThreadLists.ThreadList.CompactOnce | src/internal/pumanode.c:30-49 | One turn of the loop moves an element and brings the first hole up, or stops exactly where the abstract compaction does. |
| ThreadLists.ThreadList.CleanupNode | src/internal/pumanode.c:19-54 | The loop on the linked nodes ends and leaves the abstract list compacted, across deactivation and unlinking. |
| ThreadLists.ThreadList.AppendPumaNode | src/internal/pumanode.c:94-232 | All three branches (wake the inactive tail, reuse the node after it, link a fresh block) leave a valid list with the returned node as tail; fresh memory is used in the last one only. |
| ThreadLists.ThreadList.PumallocOnThreadList | src/pumalloc.c:13-40 | The method on the linked nodes returns the slot and changes the places of elements exactly as the two lemmas on places say; in terms of the fields: a tail with room and its watermark below the end is the node returned, with the watermark as slot, and every live element stays. Only fresh memory is added. |
| ThreadLists.Pufree | src/pumalloc.c:84-88 | Releasing a live element through its node's own list keeps the list valid and in order, takes exactly that element out of its contents and leaves all others in place; the node has no successor afterwards if and only if it had none or is now less than half full before an inactive one. |
| ThreadLists.ThreadList.RunKernelThread | src/pumakernel.c:39-64 | The traversal along next, with compaction on the way, computes the abstract walk, extra data and visited elements included. |
| RunTimes.RunTimeRing.RecordRunTime | src/pumakernel.c:67-72 | After any number of passes lastNRunTime is the sum of the last five run times, or of all if there were fewer. |
| RunTimes.LastNIsWindowSum | src/pumakernel.c:67-72 | The incrementally updated sum equals the window sum for every history. |
| RunTimes.RingContents | src/pumakernel.c:67-72 | The ring read from its oldest slot is the last five of the history, padded with zeros at the front. |
| Transfer.TransferKeepsW | src/internal/pumabalance.c:105-173 | Both lists satisfy the invariant afterwards; nodes, active nodes, elements and contents are conserved, also when the giving list is emptied or the receiving one is empty or inactive. |
| Transfer.TransferFromPlaces | src/internal/pumabalance.c:113-159 | Node by node: the giving list loses exactly its last n active nodes and keeps all others in order, the first inactive one under index 0 when it becomes the head. |
| Transfer.TransferToPlaces | src/internal/pumabalance.c:122-165 | Node by node: the receiving list keeps its active nodes with the last marked dirty, then has the moved ones in order under consecutive indices, then its inactive ones. |
| TransferNodes.CountNodes | src/internal/pumabalance.c:91-103 | Walking the active nodes, whose indices are asserted, counts numNodes. |
| TransferNodes.IndexNodes | src/internal/pumabalance.c:51-62 | The nodes from start to end get consecutive indices after their predecessor's. |
| TransferNodes.MoveNodeThreadLists | src/internal/pumabalance.c:64-75 | Exactly the nodes from start to end name the new list. |
| TransferNodes.UpdateNumElements | src/internal/pumabalance.c:77-89 | Exactly the elements of the nodes from start to end change lists in the two counters. |
| TransferNodes.Splice | src/internal/pumabalance.c:115-159 | The link writes turn f1 + run + f3 and t1 + t3 into f1 + f3 and t1 + run + t3, with next and prev inverse throughout and heads and tails right, in every empty or non-empty case. |
| TransferNodes.MemoryMoves | src/internal/pumabalance.c:105-173 | No block is shared between the two lists afterwards and none is lost. |
| TransferNodes.TransferNNodes | src/internal/pumabalance.c:105-173 | The whole method: two valid lists stay valid and apart, satisfy the invariant, and have become what the two node-by-node lemmas say. |
| Runs.StepRefines | src/pumalloc.c:13-40 | Each enabled operation keeps the invariant of every list and changes the multisets of contents by exactly what it is about: the bytes in the returned slot are added, those in the released slot removed, those in the slot stored to replaced, a pass replaces every element by what the kernel makes of it, a transfer moves the contents of the last n active nodes; every other element of every list stays. |
| Runs.RunsKeepW | src/pumalloc.c:13-40 | In every state reachable by any finite sequence of operations from zeroed lists, every list satisfies the invariant. |
| Runs.RunsRefine | src/pumalloc.c:84-88 | Every such sequence is, step by step, the run of the multiset specification for the bytes observed, which allows one result only. |
| Runs.RunsConserve | src/internal/alloc.c:28-30 | In every reachable state the counters of all lists add up to the allocations less the releases. |
| Runs.GiveKeepsTogether | src/internal/pumabalance.c:105-173 | A transfer changes the contents of no list but two, and the contents of all lists together not at all. |
| Runs.StrandedIsReachable | src/pumalloc.c:23-32 | For every block capacity c, 2c allocations and 2c releases lead to a stranded list, where one more allocation breaks the invariant and puts its element where no traversal arrives: the guard cannot be dropped. |
| Balance.SpeedIsPositive | src/internal/pumabalance.c:201 | With a positive total and non-negative times every relative speed is at least one over the number of active lists. |
| Balance.SpeedsSum | src/internal/pumabalance.c:197-203 | The relative speeds of the active lists sum to their number if and only if the run times of the active lists are all the time there is. |
| Balance.WindowsGiveShares | src/internal/pumabalance.c:186-203 | The same from the recorded run times: whatever each list recorded, with one positive window, shares are at least 1/numLists and sum to numLists. |
| Balance.TargetsFit | src/internal/pumabalance.c:197-223 | The targets ask for at most numLists times the average. |
| Balance.TargetsCover | src/internal/pumabalance.c:197-224 | And for more than that less one node per list: rounding loses less than a node per list. |
| Balance.TargetIsShare | src/internal/pumabalance.c:197-224 | A target t satisfies t <= ((n + 1) / n - time / total) * average < t + 1. |
| Balance.LessTimeMoreNodes | src/internal/pumabalance.c:201 | A list that took no more time than another gets at least as many nodes as its target. |
| Balance.EqualTimesEqualTargets | src/internal/pumabalance.c:201 | When the active lists took equally long, every target is the average. |
| Balance.ClassifyKeeps | src/internal/pumabalance.c:214-232 | Classifying a list keeps the balancer's invariant: surplus lists above, deficit lists below, all others at their target or one above out of the remainder. |
| Balance.MatchIsDefined | src/internal/pumabalance.c:239-246 | The two stack tops differ and nToTransfer is positive and at most the giving list's nodes: neither unsigned subtraction wraps. |
| Balance.MatchApproachesTargets | src/internal/pumabalance.c:239-254 | A match brings the surplus list down but not below its target, the deficit list up but not above, one of them to it, and touches no other list. |
| Balance.MatchKeeps | src/internal/pumabalance.c:235-256 | A match keeps the invariant with the changing remainder and pops at least one stack, so the loop ends. |
| Balance.StacksHaveRoom | src/internal/pumabalance.c:204-208 | When a list is about to be classified, both stacks have fewer than numLists entries. |
| Balance.NoneShort | src/internal/pumabalance.c:211-256 | If the targets and the remainder ask for no more nodes than there are, the deficit stack is empty after the last domain. |
| Balance.EndsBalanced | src/internal/pumabalance.c:181-257 | Then nothing is short: a list that had at most its target number of nodes has exactly that, any other no fewer than that and no more than before. Lists not left on the surplus stack are at most one above; as many are one above as the remainder that was given out, of which at most one is lost and only with the last; while some is left, lists on the stack are more than one above. No node is lost. |
| Balance.EndsServed | src/internal/pumabalance.c:181-257 | From run times and node counts alone: a list that had no more nodes than its share of the average ends with the share's whole part, any other between that and its old count, and less than numLists plus the remainder above its share. |
| Balance.EndsEven | src/internal/pumabalance.c:181-257 | After equal run times every active list ends with at least the average and at most the remainder more, and one that had no more than the average with exactly that. |
| LoadBalancer.TransferBetween | src/internal/pumabalance.c:246-247 | A transfer between two lists of the set keeps all lists valid and apart, changes two node counts and leaves every other list as it was. |
| LoadBalancer.MatchOnce | src/internal/pumabalance.c:237-255 | The body of the matching loop on the lists and the stack arrays does what the balancer's arithmetic says and keeps the contents of the set. |
| LoadBalancer.ClassifyDomain | src/internal/pumabalance.c:214-233 | The loop over a domain's lists writes the stack arrays within bounds and keeps the balancer's invariant. |
| LoadBalancer.AutobalanceThreadLoad | src/internal/pumabalance.c:181-257 | The whole method: the final node counts of the lists stand to their run times and old counts as the two lemmas above say, and to the surplus stack, which is returned, as the balance conditions say; all lists are valid and in order and the contents of the set are unchanged. |
| Barrier.StepKeepsInv | include/internal/pthreadbarrier.h:51-68 | Every step of every thread keeps the barrier's invariant, which ties count, mutex, arrivals and results together. |
| Barrier.StepRefines | include/internal/pthreadbarrier.h:51-68 | Every step is a step of the abstract barrier of POSIX.1-2017, pthread_barrier_wait, or changes nothing there: a thread leaves its k-th call only when tripCount threads have made theirs. |
| Barrier.TripCountIsCount | include/internal/pthreadbarrier.h:28-43 | In every state of every run tripCount is the count given to pthread_barrier_init. |
| Barrier.RunsRefine | include/internal/pthreadbarrier.h:28-68 | Every run for n threads and a count of at least n is, step by step, a run of the abstract barrier for that count. |
| Barrier.NoneLeavesEarly | include/internal/pthreadbarrier.h:51-68 | In every run: once a thread has returned from its k-th call, all threads have arrived k times and there are as many as the count. |
| Barrier.ExactlyOneFirst | include/internal/pthreadbarrier.h:55-67 | In every run: of the k-th calls, once all have returned, exactly one has returned 1 and all others 0, and there are as many as the count. |
| Barrier.CountInRange | include/internal/pthreadbarrier.h:54-57 | In every run count lies in [0, the initial count) whenever the mutex is free. |
| Barrier.StepsAreBounded | include/internal/pthreadbarrier.h:51-68 | Every step inside a call lessens a measure, so no call steps forever. |
| Barrier.StuckMeansWaiting | include/internal/pthreadbarrier.h:51-68 | With as many threads as the count: when nobody inside can step, every sleeper waits for a thread that has not made its call yet, so no wakeup is lost. |
| Barrier.BarrierOpens | include/internal/pthreadbarrier.h:51-68 | With as many threads as the count: when all have called equally often and nobody inside can step, everybody is outside, every call has returned, and count and mutex are as at first. |
| Barrier.MayLeaveWaitIff | include/internal/pthreadbarrier.h:55-67 | A thread inside the wait may rightly leave if and only if the broadcast has woken it, the generation is being tripped, or everybody has been counted in. |
| Barrier.WokenIffMayLeave | include/internal/pthreadbarrier.h:64-66 | With the mutex free, as a thread that returns from the wait needs it, it may rightly leave if and only if the broadcast has woken it. |
| Barrier.SpuriousWakeupBreaksBarrier | include/internal/pthreadbarrier.h:64-66 | In every state of the invariant and for any number of threads, a spurious wakeup that finds the mutex free lets its sleeper return from a call in whose generation fewer than tripCount threads have arrived: the wait is not in a loop. |
| Barrier.SleeperIsReachable | include/internal/pthreadbarrier.h:51-66 | A run of the barrier itself leads to such a state: one of two threads asleep, the mutex free, the other not yet arrived. |
| Pool.StepKeepsInv | src/pumathreadpool.c:147-213 | Every move of the caller or of a worker keeps the protocol's invariant: who may be where, whose copies are current, how far each job is. |
| Pool.CallsAreSequential | src/pumathreadpool.c:147-213 | Whenever no call is under way, for any interleaving: the calls are exactly those begun, with their functions and arguments and in their order; each worker has done every action of every call's job exactly once and in order, the data is that of doing them one worker after the other, actions of a call lie between the caller's own before and after it, and nobody is inside a job. |
| Pool.ActsAreMoves | src/pumathreadpool.c:147-163 | In every state of every run the recorded calls and own acts of the caller are, in order, what the moves so far have asked for. |
| Pool.JobIsPresent | src/pumathreadpool.c:199-207 | A worker inside a job has the function and the argument that the last executeOnThreadPool was begun with, and the caller has done nothing since: no stale and no later one. |
| Pool.NoDeadlock | src/pumathreadpool.c:147-213 | While a call is under way somebody can move. |
| Pool.MovesAreBounded | src/pumathreadpool.c:147-213 | Each move lessens the number of moves left in the call, so every call of a finite job returns. |
| KernelLists.KernelsRunInOrder | src/pumakernel.c:99-110 | After the parallel part of runKernelList each thread's list and extra data are what constructor, kernels in array order and thread reduce make of them, for any interleaving. |
| KernelLists.PhasesInOrder | src/pumakernel.c:142-166 | All constructors, kernels and thread reduces, each once per thread, precede the single global reduce, which precedes every destructor, each once per thread too. |
| KernelLists.RunKernelListEnds | src/pumakernel.c:142-166 | After runKernelList each thread's list is the one that the kernels left and its extra data is destroyed; the global reduce was given every thread's extra data as its thread reduce had left it. |
| KernelLists.RunKernelListKeeps | src/pumakernel.c:142-166 | Hence each list holds exactly what the last kernel made of what it was handed, and population and sums are what they were. |
| KernelLists.EachKernelVisitsAll | src/pumakernel.c:106-107 | Over the whole set each kernel is handed every live element exactly once by the thread that owns it, the first with the constructor's extra data and each other with what the one before it left; the population stays the same. |
| KernelLists.AddUp | src/pumaset.c:112-117 | The loop returns the sum of the array. |
| KernelLists.GetNumElements | src/pumaset.c:87-118 | The sums written by the workers add up to the number of live elements of the set, for any interleaving. |

## Left out

- Allocation.PumallocKeepsW: the invariant is stated with the condition that the list is not stranded, in both directions, because without it the code does not keep it.
- Runs.RunsKeepW: allocation is enabled only on lists that are not stranded, for the same reason.
- Balance.TargetsFit: asks for a positive total run time, because the first balance, with total 0, divides 0 by 0 in the code, and for none recorded by inactive lists: every list that the code sums over is active (src/pumaset.c:23-35).
- LoadBalancer.AutobalanceThreadLoad: makes the same two demands; active, lastNRunTime and relativeSpeed are arguments and locals instead of fields of the lists, the stacks hold thread numbers instead of addresses of lists, and numaDomain with the page moves of _moveNodeDomains is not modelled.
- Barrier.StepRefines: assumes at most tripCount participants and no spurious wakeups: SpuriousWakeupBreaksBarrier shows that one breaks the barrier whenever it finds the mutex free.
- Pool.CallsAreSequential: one caller; with several the write lock is given up before the done barrier. A job is a finite sequence of actions on the part of the data that belongs to its worker.
- KernelLists.RunKernelListEnds: the global reduce is an action of the caller on the data between the two calls that leaves lists and sums alone; its return value is not modelled.
- ThreadLists.ThreadList.AppendPumaNode: the branch that prints a message and exits is left out, and the capacity of a fresh block must be positive: Layout.CheckedMeansRoom shows that no other block passes the size check and the assertion of the layout.
- ThreadLists.ThreadList.FreeElementOnNode: of the inactive nodes behind the one it unlinks only the first is released by the code; the model keeps track of the list and its contents, not of leaked blocks.
- ThreadLists.ThreadList.PumallocOnThreadList: asks for a positive capacity; pumalloc and pumallocManualBalancing differ from it only in how they choose the list.
- pumallocAutoBalancing: the candidate list starts as NULL and is only replaced when it is not NULL, so no list is ever chosen.
- pumallocStaticLocal: its space check ignores the node header and its key is never advanced.
- ThreadLists.ThreadList.RunKernelThread: covers the traversal; the assignments to the run-time ring that follow it are RunTimes.RunTimeRing.RecordRunTime on an object of its own.
- KernelLists.KernelsRunInOrder: the lists of the threads are abstract lists here; the balancing before the two calls is an action of the caller.
- runKernelCurrentThread: the same traversal between one constructor and one destructor, without the pool.
- Times and relative speeds as doubles: rounding is not modelled.
- numalloc, nufree, libnuma, mbind, page status checks, sysconf and cache sizes: calls into the system.
- Valgrind and profiling macros, logging and the asserts about NUMA domains.
- OpenMP, affinity strings, thread-specific keys and the timing of the pool: the pool is the one built with NOOPENMP.
- Construction and destruction of sets, domains, pools and barriers, except that a barrier starts with count 0.
- Kernels that allocate or release elements of the set they run on.
