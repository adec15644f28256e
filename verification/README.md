# Swan runtime: a verified model

A Dafny model of the algorithmic core of the Swan task runtime (a Cilk Plus runtime extended
with dataflow tasks and NUMA-aware loops), with proofs of what it guarantees. Check it with
`dafny verify dfyconfig.toml`.

Each component has a specification on values, an imperative form where the runtime changes
memory in place, and theorems about the specification:

- **Dataflow engine.** `ObjMetadata` gives the metadata of one shared object twice: as the
  runtime's counters with one flat, bit-marked list, and as a queue of generations; the first
  refines the second. `ReadyQueues` says on values what becomes of a worker's ready list, with its
  tail. `TaskList` and `ReadyFrames` are the linked lists, updated in place and proved against
  these functions; `ReleaseInPlace` connects them with the engine. `ObjectProtocol` is one object over a whole run, `Dataflow` the whole engine
  with the ready lists of all workers as a step system in which every critical section, and every
  access of a body, is one step; steps of different tasks interleave freely. `DataflowTheorems`,
  `LostFrames` and `SerialEquivalence` are about all runs: conflict safety, exactly-once release,
  when there is no deadlock, termination, quiescence and equality with the serial program.
- **Static loops.** `TreeBarrier` proves the fork/join barrier over any tree of participants;
  `BinomialTree` and `StaticFor` show that the trees the runtime computes with bit masks,
  re-rooted at the master where needed, are such trees, and that a loop, from the reservation of
  its nodes to the return of its master, executes every iteration exactly once.
- **Reducers.** `HashTable` and `ReducerMap` are the open hash table that grows, rehashes and
  deletes in place. `ReducerMerge` says on values what a merge of two maps computes,
  `ReducerTrees` lets neighbouring maps be merged in any order, as a step system, and proves that
  every run gives the serial product and destroys every view once; `MapMerge` proves that the slot
  loops do what `ReducerMerge` says.
- **Frame allocator.** `FrameSizes`, `FrameBlocks` and `FrameMalloc`: byte accounts, disjoint
  blocks, amortised collection.
- **Loops, replay, fibers.** `CilkFor` (divide and conquer for every NUMA placement),
  `ReplayLog` (printing, reading and matching pedigrees), `FiberPool` (the pool hierarchy).

Two properties fail in the code, and the model says exactly when; in a third place a comment is
wrong and the code right:

- Taking a frame from a ready list leaves the tail pointer on the frame taken when this was the
  last of several (`runtime/scheduler.c:1029-1042` repairs the tail of an empty list only), and what
  is appended next is lost (`ReadyFrames.LostAppend`). `ReadyFrames.ReadyList.Steal` has the exact
  condition. For whole runs: a run that cannot continue has finished every task if and only if it
  has lost no frame (`DataflowTheorems.Quiescence`), it loses one exactly when a step appends to
  such a list (`LostFrames.RunLoses`), and it never does if no frame is restricted to some of the
  workers by a NUMA range (`LostFrames.NothingLost`). `LostFrames.LosingRun` is a run that never
  finishes.
- Pedigree ranks are printed as unsigned 64-bit numbers and read with `strtol`, which stops at
  2^63 - 1; victims are cut to 16 bits. `ReplayLog.RoundTrip` proves the round trip if and only if
  no rank is larger and the victim fits, `ReplayLog.LostRank` shows a rank that is lost.
- A comment at `runtime/dataflow_impl.c:130-132` says that a running task always joins without
  pushing a generation. On an idle object it pushes; the path taken is right all the same, as
  `ObjMetadata.FastPath` shows.

Some invariants are stated for all values of an always-true marker (`Unfolding.Marker`), which tells
the verifier where to unfold them; a lemma beside each, whose name ends in `Means` or `Mean`, gives
its plain meaning. `Sequences` holds what several modules need of sequences.

## Model

| member | source | states |
|---|---|---|
| ObjMetadata.GroupTable | runtime/dataflow_impl.c:143-146 | The two bit tests mean: anything joins an idle object; otherwise exactly READ joins READ and COMMUT joins COMMUT, and exactly the others open a generation |
| ObjMetadata.AddMeans | runtime/dataflow_impl.c:141-173 | On an idle object, or beside running accesses of the same group other than WRITE when nobody waits, a task runs at once; else it joins the youngest waiting generation of the same group other than WRITE, or opens one behind all others |
| ObjMetadata.ReleaseMeans | runtime/dataflow_impl.c:38-105 | Only the last running task lets the oldest waiting generation run, the whole of it and nobody else |
| ObjMetadata.AddTaskRefines | runtime/dataflow_impl.c:120-181 | Issuing on the flat list with low-bit marks leaves the encoding of the queue of generations with the access added, and reports readiness exactly if the access is granted; generations stay well formed (a writer alone in its own) |
| ObjMetadata.WakeupRefines | runtime/dataflow_impl.c:38-105 | Releasing leaves the encoding of the queue with the task retired; what is released is exactly the next generation, in issue order, if the task was the last one running, and nothing otherwise |
| ObjMetadata.ListEmptyIff | runtime/dataflow_impl.c:175-176 | The list is empty iff at most one generation exists; num_gens is 0 iff nothing runs iff the group is EMPTY |
| ObjMetadata.FastPath | runtime/dataflow_impl.c:28-36 | `ini_ready` answers exactly whether `add_task` would grant, and then the null-task path leaves the same metadata as the general path |
| ObjMetadata.FlatFifo | runtime/dataflow_impl.c:163-172 | First in, first out: an issue appends to the waiting tasks or leaves them alone, a release takes exactly what it released off the front |
| TaskList.Metadata.constructor | runtime/dataflow_impl.c:20-26 | The sentinel list starts as the initial metadata value |
| TaskList.Metadata.AddTask | runtime/dataflow_impl.c:120-181 | In place, on nodes and tail pointer: the metadata becomes what the specification of an issue says, for pending and for running tasks, and the frame is counted up exactly if it has to wait |
| TaskList.Metadata.AddPending | runtime/dataflow_impl.c:141-181 | The general path, same statement |
| TaskList.Metadata.Enqueue | runtime/dataflow_impl.c:163-172 | The node is linked behind the tail and the bit of the old tail says whether a generation ended there |
| TaskList.Metadata.Wakeup | runtime/dataflow_impl.c:91-105 | In place: the metadata becomes what the specification of a release says; exactly the released frames are counted down, once each, and exactly those whose count is zero then are appended behind the ready list, once each and in order |
| TaskList.Metadata.WakeupHard | runtime/dataflow_impl.c:38-89 | The same for the path that retires a generation |
| TaskList.Metadata.ReleaseLoop | runtime/dataflow_impl.c:40-59 | The pointer walk stops behind the first generation, having counted each of its frames down once and appended exactly those whose count is zero then, in order |
| TaskList.Metadata.Visit | runtime/dataflow_impl.c:44-55 | One node: its frame, and no other, is counted down by one, and appended to the ready list iff its count is zero then |
| TaskList.Metadata.PopGeneration | runtime/dataflow_impl.c:61-84 | The generation just released becomes the oldest; an emptied list gets its tail back to the sentinel |
| TaskList.GenLengthIs | runtime/dataflow_impl.c:56-58 | Where the walk stops is the length of the first generation |
| ReleaseInPlace.GrantInPlace | runtime/dataflow_impl.c:40-59 | The walk in place and the release step of the engine agree: the same counts afterwards, and the frames appended are, one by one, those that the engine gathers |
| ReadyFrames.ReadyList.constructor | runtime/scheduler.c:3421-3422 | An empty ready list ends at its own head |
| ReadyFrames.PendingFrame.constructor | runtime/cilk-abi.c:225-226 | A pending frame starts with the issue guard as its only count |
| ReadyFrames.ReadyList.Append | runtime/dataflow_impl.c:183-190 | The frame becomes the last behind all others; if the tail has been left outside the list, the list does not change and the frame cannot be reached from its head |
| ReadyFrames.ReadyList.MoveFrom | runtime/dataflow_impl.c:192-201 | A whole list is appended without loss, duplication or reordering, or lost as a whole behind a wrong tail |
| ReadyFrames.ReadyList.Steal | runtime/scheduler.c:1021-1042 | The first frame that may run here is unlinked and no other; a list that was in order stays so if and only if it held one frame only or a frame other than the last may run here: otherwise the tail stays on the frame taken |
| ReadyFrames.ReadyList.Find | runtime/scheduler.c:1023-1036 | The walk stops at the first frame that may run here, or at the end |
| ReadyFrames.ReadyList.Unlink | runtime/scheduler.c:1027-1039 | Exactly the frame found leaves the links |
| ReadyFrames.ReadyList.TakeOut | runtime/scheduler.c:1037-1042 | After unlinking only an empty list gets its tail back |
| ReadyQueues.TakeAttached | runtime/scheduler.c:1023-1042 | The exact condition under which taking leaves the tail right, before the taking |
| ReadyQueues.TakeAny | runtime/scheduler.c:1023-1027 | If every frame may run here, the first is taken and the tail stays right |
| ReadyFrames.StealLast | runtime/scheduler.c:1029-1042 | A concrete list on which taking the last of two frames leaves the tail on the frame taken |
| ReadyFrames.LostAppend | runtime/dataflow_impl.c:186-188 | The next append to that list is lost: the links from the head still end at the first frame |
| ReadyFrames.ChainDiffers | runtime/scheduler.c:1029-1035 | A chain of frames that ends never visits a frame twice, so the walk terminates |
| ObjectProtocol.ObjInit | runtime/dataflow_impl.c:20-26 | A fresh object satisfies the ordering invariant |
| ObjectProtocol.ObjIssue | runtime/dataflow_impl.c:120-181 | Issuing in program order keeps it: whoever got through is earlier than whoever waits, and a conflicting earlier task of anybody that got through has released |
| ObjectProtocol.ObjRelease | runtime/dataflow_impl.c:38-105 | Releasing keeps it |
| ObjectProtocol.OrderFifoRelease | runtime/dataflow_impl.c:43-59 | In particular when a whole generation is let through |
| ObjectProtocol.ObjQuiescent | runtime/dataflow_impl.c:98-101 | When everybody who issued has released, the metadata is the initial one |
| Dataflow.InitInv | runtime/cilk-abi.c:225-226 | The initial state of a program satisfies the global invariant |
| Dataflow.PerformEffect | runtime/dataflow_impl.c:91-181 | A write changes exactly its object, to the value written; a read adds the value of the object to what has been read; nothing else changes |
| Dataflow.IssueKeeps | runtime/dataflow_impl.c:120-181 | An issue step keeps it |
| Dataflow.DropGuardKeeps | runtime/cilk-abi-cilk-for-numa.cpp:670-670 | Dropping the issue guard keeps it |
| Dataflow.StartKeeps | runtime/scheduler.c:1021-1042 | Taking the first frame that fits from any worker's ready list keeps it, the tail of the list being left where the code leaves it |
| Dataflow.ReadyPublish | runtime/dataflow_impl.c:183-201 | Appending to a ready list keeps every ready frame in exactly one place, on a list or lost behind a wrong tail |
| Dataflow.ReleaseKeeps | runtime/dataflow_impl.c:38-105 | A release step, with all the frames it lets through, keeps it |
| Dataflow.StepKeeps | runtime/dataflow_impl.c:38-181 | Every step keeps the invariant of metadata, counters and ready list |
| Dataflow.GrantFrames | runtime/dataflow_impl.c:49-49 | The release loop counts each released frame down once and leaves the others alone |
| Dataflow.GrantReady | runtime/dataflow_impl.c:49-55 | It gathers exactly the frames whose count reaches zero, once each |
| DataflowTheorems.RunInv | runtime/dataflow_impl.c:38-181 | Every state of every run satisfies the invariant |
| DataflowTheorems.ConflictSafety | runtime/dataflow_impl.c:143-173 | In every state of every run, tasks in conflict never hold an object together, and a task has not started before every earlier task in conflict with it has released |
| DataflowTheorems.CounterExact | runtime/dataflow_impl.c:43-59 | The counter of a frame is its undropped guard plus the number of objects it is queued on; the frame is on one ready list, once, or lost behind a wrong tail, exactly while the counter is zero and it has not started |
| DataflowTheorems.ZeroForEver | runtime/dataflow_impl.c:49-49 | A counter that has reached zero stays zero |
| DataflowTheorems.EntersOnce | runtime/dataflow_impl.c:49-55 | In no run is a frame put on a ready list twice |
| DataflowTheorems.Progress | runtime/dataflow_impl.c:38-105 | No deadlock while no frame has been lost from a ready list: while a task is unfinished, some step is enabled. When nothing is lost: `LostFrames.RunLoses`, `LostFrames.NothingLost` |
| DataflowTheorems.StepCosts | runtime/dataflow_impl.c:38-181 | Every step uses up exactly one unit of the work left |
| DataflowTheorems.RunLength | runtime/dataflow_impl.c:38-181 | So every run is finite: its length is the work done and never exceeds the initial work |
| DataflowTheorems.Quiescence | runtime/dataflow_impl.c:98-101 | A run that cannot continue has finished all tasks if and only if it has lost no frame; then all objects are back to zero running, no generation, EMPTY, empty list, and all ready lists are empty |
| LostFrames.StepLoses | runtime/dataflow_impl.c:183-201 | A step loses a frame exactly if it appends to a list whose tail is wrong |
| LostFrames.RunLoses | runtime/dataflow_impl.c:183-201 | A run has lost no frame if and only if none of its steps did that |
| LostFrames.TailAfterStart | runtime/scheduler.c:1023-1042 | A start leaves the tail of the list right exactly if there was one frame, or the tail was right and the worker may run a frame other than the last |
| LostFrames.LostForEver | runtime/scheduler.c:1021-1042 | A lost frame stays lost and its task never starts |
| LostFrames.NothingLost | runtime/scheduler.c:601-612 | If no frame is restricted to some workers (no NUMA range), no run loses a frame, all tails stay right and frames are taken from the front |
| LostFrames.AllFinish | runtime/dataflow_impl.c:38-105 | Then every run that cannot continue has finished every task: no deadlock without condition |
| LostFrames.LosingIsRun | runtime/scheduler.c:1029-1042 | A concrete run of three tasks on two workers that loses a frame although every frame may run somewhere |
| LostFrames.LosingRun | runtime/scheduler.c:1029-1042 | However that run goes on, the program is never finished |
| SerialEquivalence.SerialInputs | runtime/dataflow_impl.c:91-181 | Under every interleaving, the values a task has read so far, in order, are those its body reads in the serial program up to the same step; a body may read and write in any order and decide by what it has read |
| SerialEquivalence.SerialStore | runtime/dataflow_impl.c:91-181 | Once all tasks are finished, the store is exactly that of the serial program |
| SerialEquivalence.SerialResult | runtime/dataflow_impl.c:91-181 | Without restricted frames every run that cannot continue has left the serial store |
| SerialEquivalence.BodyFrontier | runtime/dataflow_impl.c:143-147 | While a task is in its body, the earlier writers of each of its objects have finished theirs and the later ones have not begun |
| SerialEquivalence.BodyAgrees | runtime/dataflow_impl.c:143-147 | A step of a body reads, and leaves in the objects of its task, what the serial body does at that step |
| SerialEquivalence.StepKeepsValues | runtime/dataflow_impl.c:91-181 | Every step keeps the agreement with the serial values |
| SerialEquivalence.RunValues | runtime/dataflow_impl.c:91-181 | Hence it holds in every state of every run |
| TreeBarrier.NoticeKeeps | runtime/cilk-abi-cilk-for-static.cpp:304-318 | A participant that finds its slot set keeps the barrier invariant |
| TreeBarrier.InitInv | runtime/cilk-abi-cilk-for-static.cpp:585-606 | At the start nobody is signalled and the master is about to signal: the invariant holds |
| TreeBarrier.SignalKeeps | runtime/cilk-abi-cilk-for-static.cpp:320-333 | Setting a child's slot keeps it |
| TreeBarrier.ExecuteKeeps | runtime/cilk-abi-cilk-for-static.cpp:339-343 | Running the block keeps it |
| TreeBarrier.CollectKeeps | runtime/cilk-abi-cilk-for-static.cpp:349-371 | Seeing a child's slot cleared keeps it |
| TreeBarrier.LeaveKeeps | runtime/cilk-abi-cilk-for-static.cpp:373-380 | Clearing the own slot keeps it |
| TreeBarrier.RunInv | runtime/cilk-abi-cilk-for-static.cpp:279-381 | Every state of every run satisfies the invariant |
| TreeBarrier.BarrierComplete | runtime/cilk-abi-cilk-for-static.cpp:644-715 | When the master returns, everybody has run its block exactly once, everybody but the master was signalled exactly once, all are done and all slots are clear |
| TreeBarrier.AtMostOnce | runtime/cilk-abi-cilk-for-static.cpp:301-343 | At no time has anybody been signalled or run twice, or run without a signal |
| TreeBarrier.ForkBeforeWork | runtime/cilk-abi-cilk-for-static.cpp:320-380 | Whoever has run its block has signalled all its children before; whoever has cleared its slot has run its block, and so have its children |
| TreeBarrier.StateOutlivesReaders | runtime/cilk-abi-cilk-for-static.cpp:317-371 | Nobody uses the capture on the master's stack once the master has returned |
| TreeBarrier.Progress | runtime/cilk-abi-cilk-for-static.cpp:304-380 | No deadlock: until the master returns, some step is enabled |
| TreeBarrier.StepCosts | runtime/cilk-abi-cilk-for-static.cpp:304-380 | Every step uses up exactly one of the steps left |
| TreeBarrier.RunLength | runtime/cilk-abi-cilk-for-static.cpp:304-380 | Every run is finite, and it is complete iff the master has returned iff no step is enabled |
| BinomialTree.LogThreads | runtime/cilk-abi-cilk-for-static.cpp:295-296 | The shift loop gives the least power of two that is enough for the workers |
| BinomialTree.ChildAt | runtime/cilk-abi-cilk-for-static.cpp:321-325 | The mask tests find the child at one level exactly if there is one |
| BinomialTree.Children | runtime/cilk-abi-cilk-for-static.cpp:320-333 | The loop over levels with its mask tests yields the children list of the binomial tree, the farthest child first, without the rewired one |
| BinomialTree.KidsMember | runtime/cilk-abi-cilk-for-static.cpp:320-333 | The children of a worker are exactly the workers that become it when their lowest set bit is cleared, except the rewired one |
| BinomialTree.KidsDistinct | runtime/cilk-abi-cilk-for-static.cpp:320-333 | None is listed twice |
| BinomialTree.KidsOrder | runtime/cilk-abi-cilk-for-static.cpp:320-333 | The children are listed from the farthest to the nearest |
| BinomialTree.SystemKids | runtime/cilk-abi-cilk-for-static.cpp:603-627 | With a system worker as master: worker 0 and the binomial children of the master become its children, both for signalling and for waiting, and the master's binomial parent skips it |
| BinomialTree.SystemTreeOk | runtime/cilk-abi-cilk-for-static.cpp:598-628 | Whichever worker is the master, the rewired lists form a tree that reaches every worker once |
| StaticFor.UserTreeOk | runtime/cilk-abi-cilk-for-static.cpp:587-597 | With a user worker as master, the per-node binomial trees under it reach every worker of every reserved node once |
| StaticFor.NodeIs | runtime/cilk-abi-cilk-for-static.cpp:290-291 | Worker numbers decode to node and index on the node |
| StaticFor.SlotsDiffer | runtime/cilk-abi-cilk-for-static.cpp:290-291 | Different workers of reserved nodes wait on different slots |
| StaticFor.DeltaLeast | runtime/cilk-abi-cilk-for-static.cpp:573-579 | The rounded-up block size is the least with which one block for each thread covers all iterations |
| StaticFor.BlocksPartition | runtime/cilk-abi-cilk-for-static.cpp:215-218 | Every iteration is in the clipped block of exactly one work index below the number of threads; the blocks are consecutive and of the least size that is enough |
| StaticFor.SharesFair | runtime/cilk-abi-cilk-for-static.cpp:215-218 | No block has more iterations than the number of iterations by that of threads, rounded up |
| StaticFor.Allocate | runtime/cilk-abi-cilk-for-static.cpp:482-503 | The nodes reserved are exactly the free ones with workers among those looked at, in order; the search stops as soon as enough threads are found and not before, so without the last of several nodes there were too few |
| StaticFor.LookAll | runtime/cilk-abi-cilk-for-static.cpp:482-503 | The search loop |
| StaticFor.Look | runtime/cilk-abi-cilk-for-static.cpp:484-499 | One node: taken and counted if it is free, passed over otherwise |
| StaticFor.SearchNumbers | runtime/cilk-abi-cilk-for-static.cpp:489-495 | The numbering and the thread count of what has been found, by nodes |
| StaticFor.NumberedStep | runtime/cilk-abi-cilk-for-static.cpp:490-497 | The work indices of the next node, and in the end the number of threads, come right behind those of a node and, with its own node, of the user worker; the first node starts at 0 |
| StaticFor.LastWasNeeded | runtime/cilk-abi-cilk-for-static.cpp:498-500 | The threads counted before the last of several nodes were too few |
| StaticFor.SearchStart | runtime/cilk-abi-cilk-for-static.cpp:479-482 | The empty search is in order |
| StaticFor.SearchTake | runtime/cilk-abi-cilk-for-static.cpp:486-502 | Taking a node keeps the search invariant: numbering, thread count and the position of the master's node |
| StaticFor.SearchSkip | runtime/cilk-abi-cilk-for-static.cpp:484-486 | Passing over a busy or empty node keeps it |
| StaticFor.AllocateOwn | runtime/cilk-abi-cilk-for-static.cpp:505-518 | The same when the loop is confined to the master's node |
| StaticFor.UserWorkBijection | runtime/cilk-abi-cilk-for-static.cpp:634-640 | The workers of the reserved nodes and the user worker have the work indices 0 to num_threads - 1, each once |
| StaticFor.SystemLoop | runtime/cilk-abi-cilk-for-static.cpp:598-715 | A loop with a system worker as master: when it returns, every iteration below count has been executed exactly once, and nothing else, and all is quiet |
| StaticFor.UserLoop | runtime/cilk-abi-cilk-for-static.cpp:587-715 | The same with a user worker as master over any reserved nodes |
| StaticFor.UserMaster | runtime/cilk-abi-cilk-for-static.cpp:482-715 | Whole loop, system-wide, user master whose node was reserved: there are as many participants as threads were counted, and when the master returns every iteration has been executed exactly once, nobody executed more than the rounded-up share, and all is quiet |
| StaticFor.UserOwn | runtime/cilk-abi-cilk-for-static.cpp:504-715 | The same confined to the master's node, also when that is taken and the master is alone |
| StaticFor.SystemMaster | runtime/cilk-abi-cilk-for-static.cpp:482-715 | The same for a system worker whose search reserved its own node only: the threads are those of the node and the work indices start at 0 |
| StaticFor.SystemOwn | runtime/cilk-abi-cilk-for-static.cpp:504-715 | The same confined to the node of the system worker, which is free |
| StaticFor.OneNode | runtime/cilk-abi-cilk-for-static.cpp:489-495 | A node reserved alone brings all threads and has first work index 0 |
| Bits.AndMask | runtime/cilk-abi-cilk-for-static.cpp:321-322 | Masking with 2^p - 1 is the remainder modulo 2^p |
| Bits.OrBit | runtime/cilk-abi-cilk-for-static.cpp:324-324 | Setting a bit below the lowest set one adds its weight |
| Bits.ClearLowBit | runtime/cilk-abi-cilk-for-static.cpp:322-324 | Clearing the lowest set bit 2^e leaves a multiple of 2^(e+1) |
| HashTable.RoundUpSlots | runtime/reducer_impl.cpp:265-276 | The number of slots that exactly fills the memory block in which the slots asked for would lie, at least one |
| HashTable.HashInRange | runtime/reducer_impl.cpp:346-355 | Every hash is below the number of buckets |
| HashTable.HashMeans | runtime/reducer_impl.cpp:346-355 | The hash is the remainder of the mixed key, in which every bit is the parity of the eight bits of the key at distances 0, 3, 8, 11, 21, 24, 29 and 32 |
| HashTable.OneDoubling | runtime/reducer_impl.cpp:331-344 | One doubling always makes room for the next element, and there are never more elements than buckets |
| HashTable.TableInsert | runtime/reducer_impl.cpp:433-462 | A new key appended to its hash bucket extends the table by exactly its entry |
| HashTable.TableRemove | runtime/reducer_impl.cpp:603-611 | Taking out a slot removes exactly its key |
| HashTable.TableSet | runtime/reducer_impl.cpp:896-899 | Replacing the view in a slot changes exactly the entry of its key |
| HashTable.WalkedAll | runtime/reducer_impl.cpp:481-488 | A walk over all slots meets every key once |
| ReducerMap.Grow | runtime/reducer_impl.cpp:393-431 | The slot returned is the first free one and lies below the terminator of the bucket, which keeps its elements |
| ReducerMap.FindEmpty | runtime/reducer_impl.cpp:402-406 | The scan finds the end of the dense prefix |
| ReducerMap.Enlarge | runtime/reducer_impl.cpp:412-428 | A full bucket is copied into one with twice the room, rounded up to a block, and all further slots are empty |
| ReducerMap.Find | runtime/reducer_impl.cpp:516-528 | The scan finds the slot of the key or shows that there is none |
| ReducerMap.Remove | runtime/reducer_impl.cpp:607-610 | Moving the later elements forward takes out exactly one and keeps the order and the terminator |
| ReducerMap.CilkredMap.constructor | runtime/reducer_impl.cpp:752-771 | A new map has one empty bucket and stands for the empty table |
| ReducerMap.CilkredMap.InsertNoRehash | runtime/reducer_impl.cpp:433-462 | The table gains exactly the new entry, behind the elements of its hash bucket |
| ReducerMap.CilkredMap.MakeBuckets | runtime/reducer_impl.cpp:283-310 | All buckets empty, as many as asked for |
| ReducerMap.CilkredMap.Reinsert | runtime/reducer_impl.cpp:482-487 | Exactly the elements of one old bucket are added |
| ReducerMap.CilkredMap.Rehash | runtime/reducer_impl.cpp:464-493 | The mapping is the same afterwards, over twice the buckets |
| ReducerMap.CilkredMap.RehashAndInsert | runtime/reducer_impl.cpp:495-511 | The table gains exactly the new entry; the buckets are doubled if there are too few for one more element, and stay otherwise |
| ReducerMap.CilkredMap.Lookup | runtime/reducer_impl.cpp:514-529 | Finds the element iff the key is in the table |
| ReducerMap.CilkredMap.HyperCreate | runtime/reducer_impl.cpp:621-671 | The hyperobject is entered with its leftmost view, the address that is its key |
| ReducerMap.CilkredMap.HyperLookup | runtime/reducer_impl.cpp:675-732 | Returns the view in the table; creates it if absent, the leftmost view in the leftmost map and a new one elsewhere |
| ReducerMap.CilkredMap.HyperDestroy | runtime/reducer_impl.cpp:561-617 | Succeeds iff the map holds the leftmost view, and then removes exactly this entry; otherwise nothing changes |
| ReducerMap.CilkredMap.SetView | runtime/reducer_impl.cpp:896-899 | Exactly one view is replaced |
| ReducerMap.CilkredMap.InUse | runtime/reducer_impl.cpp:850-852 | The test that ends a walk over a bucket is true exactly on the elements |
| ReducerMerge.KeepDrop | runtime/reducer_impl.cpp:862-900 | Different keys keep and drop different views, and nothing kept is dropped |
| ReducerMerge.MergePart | runtime/reducer_impl.cpp:818-943 | A merge in either direction leaves, for every key, the earlier part reduced with the later part, the absence of a key in the leftmost map standing for the initial value |
| ReducerMerge.MergeMeans | runtime/reducer_impl.cpp:970-997 | So does the merge of two strands, whichever map survives |
| ReducerMerge.MergeOwns | runtime/reducer_impl.cpp:862-900 | The surviving map owns its views: none twice, a leftmost view only under its own key |
| ReducerMerge.MergeHolds | runtime/reducer_impl.cpp:855-941 | Every view of the two maps is held by the survivor or destroyed once, never both |
| ReducerMerge.HomeNotDropped | runtime/reducer_impl.cpp:531-554 | A leftmost view is never destroyed |
| ReducerTrees.StepKeeps | runtime/reducer_impl.cpp:970-997 | Merging any two neighbouring maps keeps ownership: what each map holds comes from its strands, no view is in two maps, a leftmost view stays with the first map that has it, and untouched initial values stay intact |
| ReducerTrees.RunInv | runtime/reducer_impl.cpp:970-997 | So in every state of every run, whatever is merged in whatever order |
| ReducerTrees.RunLength | runtime/reducer_impl.cpp:970-997 | A run has merged everything iff no merge is possible iff it has one step fewer than there are strands |
| ReducerTrees.AnyBracketing | runtime/reducer_impl.cpp:970-997 | In every state of every run, for an associative operation, each map has for a key the parts of its strands combined in serial order: any bracketing, and merges of different strands in any order |
| ReducerTrees.SerialIsProduct | runtime/reducer_impl.cpp:862-900 | Parts combined in order are the product of the serial operands, the initial value first if the leftmost strand never touched the object |
| ReducerTrees.Determinism | runtime/reducer_impl.cpp:818-997 | The final value of every hyperobject is the serial product, for every order of merges and every associative, possibly non-commutative operation |
| ReducerTrees.OrderIrrelevant | runtime/reducer_impl.cpp:970-997 | Two runs that merge everything agree on every hyperobject |
| ReducerTrees.DestroyedOnce | runtime/reducer_impl.cpp:776-808 | In every state of every run, every view of a strand that is not leftmost is held by exactly one map or has been destroyed exactly once; nothing else is destroyed |
| MapMerge.MineSlot | runtime/reducer_impl.cpp:860-879 | The slot to reduce into, after the leftmost map has taken in the leftmost view |
| MapMerge.ReduceSlots | runtime/reducer_impl.cpp:890-919 | After the exchange of views for a merge to the right, the reduction has the earlier view on its left |
| MapMerge.MoveSlot | runtime/reducer_impl.cpp:881-886 | A view unknown to the survivor moves to it |
| MapMerge.MergeElement | runtime/reducer_impl.cpp:852-934 | One element is treated as the specification says: view kept, view left behind, cell written |
| MapMerge.MergeSlot | runtime/reducer_impl.cpp:852-934 | The loop over a bucket has done one more key, and ends exactly at the unused slot |
| MapMerge.MergeBucket | runtime/reducer_impl.cpp:850-935 | All keys of a bucket are done |
| MapMerge.MergeAll | runtime/reducer_impl.cpp:849-936 | All keys are done |
| MapMerge.Retire | runtime/reducer_impl.cpp:937-942 | The survivor is leftmost if one of the two was, and the views left in the other map are destroyed |
| MapMerge.Merge | runtime/reducer_impl.cpp:818-943 | In place, on hash tables that may rehash while they are being filled: map, cells and destroyed views are exactly those of the merge on values |
| MapMerge.DestroyBucket | runtime/reducer_impl.cpp:789-797 | Destroys the views of one bucket, leftmost ones excepted |
| MapMerge.DestroyMap | runtime/reducer_impl.cpp:776-808 | Destroys every view of the map once, leftmost and moved ones excepted |
| MapMerge.MergeReducerMaps | runtime/reducer_impl.cpp:970-997 | The earlier map survives exactly if it is leftmost or the larger; the effects are those of the merge of consecutive strands on values; a missing map changes nothing |
| FrameSizes.BucketOfSize | runtime/frame_malloc.c:360-370 | The first class that is large enough |
| FrameSizes.SizeClasses | runtime/frame_malloc.c:84-92 | The size classes are the powers of two from 64 to 2048 |
| FrameSizes.RoundUp | runtime/frame_malloc.c:372-381 | The smallest size class that holds the request, the request itself above the limit |
| FrameBlocks.CarveGeometry | runtime/frame_malloc.c:172-173 | A block carved off the pool overlaps no other |
| FrameBlocks.ExtendGeometry | runtime/frame_malloc.c:140-153 | Neither do blocks overlap a new chunk |
| FrameMalloc.FrameAllocator.constructor | runtime/frame_malloc.c:444-453 | Empty lists and accounts |
| FrameMalloc.FrameAllocator.ExtendGlobalPool | runtime/frame_malloc.c:165-171 | A new chunk; the rest of the old one is accounted as wasted |
| FrameMalloc.FrameAllocator.Carve | runtime/frame_malloc.c:172-173 | The block carved is the one at the start of the pool and new |
| FrameMalloc.FrameAllocator.PopGlobal | runtime/frame_malloc.c:163-163 | The first block of the global list, the others staying in order |
| FrameMalloc.FrameAllocator.GlobalAlloc | runtime/frame_malloc.c:156-178 | The first block of the global list if there is one, else a block carved off the pool, extended only if it is too short; no byte is lost from the accounts |
| FrameMalloc.FrameAllocator.GlobalFree | runtime/frame_malloc.c:180-189 | The block becomes the first of its global list, and the accounts follow |
| FrameMalloc.FrameAllocator.WorkerPush | runtime/frame_malloc.c:293-295 | The block becomes the first of the worker's list, and potential and cost grow by it |
| FrameMalloc.FrameAllocator.WorkerPop | runtime/frame_malloc.c:404-404 | Exactly the block at the position leaves the worker's list |
| FrameMalloc.FrameAllocator.AllocateBatch | runtime/frame_malloc.c:275-303 | Exactly one batch moves to the worker's list: the blocks of the global list first, in order, then new ones; the potential grows by it and nothing else changes |
| FrameMalloc.FrameAllocator.FetchNext | runtime/frame_malloc.c:293-296 | One more block, the next of the global list or a new one, becomes the first of the worker's list |
| FrameMalloc.FrameAllocator.CountKept | runtime/frame_malloc.c:311-317 | The first loop keeps the shortest prefix that is worth half the potential, or the whole list |
| FrameMalloc.FrameAllocator.FreeBehind | runtime/frame_malloc.c:319-331 | The second loop gives back everything behind the first block not counted, in order |
| FrameMalloc.FrameAllocator.GiveNext | runtime/frame_malloc.c:324-329 | The first block behind those kept becomes the first of the global list |
| FrameMalloc.FrameAllocator.GcBucket | runtime/frame_malloc.c:305-332 | List, global list, potential and the nodes visited by both loops, exactly |
| FrameMalloc.FrameAllocator.MoveBucket | runtime/frame_malloc.c:336-358 | The worker's list ends empty and its potential zero, the blocks being in front of the global list, the last one first |
| FrameMalloc.FrameAllocator.Drain | runtime/frame_malloc.c:343-354 | The worker's list ends empty, the blocks being in front of the global list, the last one first |
| FrameMalloc.FrameAllocator.Malloc | runtime/frame_malloc.c:389-413 | The first block of the worker's list of the right class and nothing else touched; only if that list is empty, exactly one batch is fetched first; big requests change nothing |
| FrameMalloc.FrameAllocator.Free | runtime/frame_malloc.c:415-442 | The block becomes the first of the worker's list and the potential grows by it; over the limit, the list is the prefix that the collector keeps and the rest is on the global list; big requests change nothing |
| FrameMalloc.FrameAllocator.WorkerCleanup | runtime/frame_malloc.c:455-465 | All lists of the worker end empty, their blocks being on the global lists; other workers keep theirs |
| FrameMalloc.FrameAllocator.NoLeak | runtime/frame_malloc.c:255-263 | With all blocks freed and all workers cleaned up, the counter checked at shutdown is zero and every byte from the operating system is wasted, in the pool or on a global list |
| FrameMalloc.FrameAllocator.Disjoint | runtime/frame_malloc.c:156-178 | No two blocks overlap, and none overlaps the rest of the pool |
| FrameMalloc.FrameAllocator.OnePlace | runtime/frame_malloc.c:156-189 | A block is on the one list that its place and size class say |
| FrameMalloc.FrameAllocator.CollectorAmortised | runtime/frame_malloc.c:311-331 | The nodes both loops of the collector ever visited in a bucket are at most three times the blocks ever put on it |
| FrameMalloc.CountCost | runtime/frame_malloc.c:311-317 | Counting is paid for by the potential given up |
| CilkFor.GrainSize | runtime/cilk-abi-cilk-for.cpp:78-116 | At least 1; the request if positive; otherwise at most 2048 and, below that, the count divided by eight times the workers, rounded up |
| CilkFor.Middle | runtime/cilk-abi-cilk-for-numa.cpp:294-296 | A range is split in the middle, rounded down |
| CilkFor.NumaRecursive | runtime/cilk-abi-cilk-for-numa.cpp:268-381 | The loop with its spawns runs the leaves of the halving tree that the placements select, and the window of its frame, at the start and at each spawn, is what remains of the range |
| CilkFor.SpawnHalf | runtime/cilk-abi-cilk-for-numa.cpp:334-363 | The range is split in the middle; the half that is not placed is spawned, the frame's window is the other half while it is, and the loop goes on with that |
| CilkFor.RemainingLeaves | runtime/cilk-abi-cilk-for-numa.cpp:335-363 | What remains at a turn is exactly what has not been spawned: its leaves are the last of the whole loop |
| CilkFor.RemainingLast | runtime/cilk-abi-cilk-for-numa.cpp:289-291 | The loop stops at the first range no larger than a grain |
| CilkFor.Frame.constructor | runtime/cilk-abi-cilk-for-numa.cpp:281-282 | The window of a new frame is its whole range |
| CilkFor.Recursive | runtime/cilk-abi-cilk-for.cpp:246-295 | The plain loop does so with the low half always spawned |
| CilkFor.LeavesCover | runtime/cilk-abi-cilk-for-numa.cpp:289-371 | For every placement, every iteration is in exactly one leaf and nothing else is |
| CilkFor.LeafSizes | runtime/cilk-abi-cilk-for-numa.cpp:291-294 | No leaf exceeds the grain; after a split none is below half a grain, rounded up |
| CilkFor.LeafCount | runtime/cilk-abi-cilk-for-numa.cpp:291-294 | So a split loop has at most one leaf for each half grain |
| CilkFor.FlatPedigrees | runtime/cilk-abi-cilk-for.cpp:154-168 | They are those of a loop with a single leaf |
| CilkFor.IterationPedigrees | runtime/cilk-abi-cilk-for.cpp:154-168 | The pedigrees of the iterations are those of one flat loop, in which the ranks count the iterations, whatever the recursion |
| ReplayLog.DecimalValue | runtime/record-replay.cpp:267-267 | The decimal text of a rank has the rank as its value |
| ReplayLog.DigitText | runtime/record-replay.cpp:267-267 | The digits printed and read are the usual ones |
| ReplayLog.NoLeadingZero | runtime/record-replay.cpp:267-267 | No rank is printed with a leading zero but 0 itself |
| ReplayLog.PrintPrefix | runtime/record-replay.cpp:258-268 | The text up to a term is the print of the outer nodes, an underscore follows unless it is the last |
| ReplayLog.TermAt | runtime/record-replay.cpp:152-158 | Reading at the start of a printed term gives its rank, capped by strtol, and stops right behind it |
| ReplayLog.ReadTerms | runtime/record-replay.cpp:144-158 | The terms of a printed pedigree, outermost first; the buffer is never exceeded |
| ReplayLog.Reverse | runtime/record-replay.cpp:160-166 | The terms in reverse order |
| ReplayLog.Load | runtime/record-replay.cpp:122-169 | "Steal" gives a steal with the victim cut to 16 bits, "Sync" a sync and "Orphaned" an orphaned record with the value -1, all other names are refused; the ranks are those of the record, each capped by strtol |
| ReplayLog.Reload | runtime/record-replay.cpp:332-376 | What has been recorded for a steal, a sync or an orphaned frame is loaded as such |
| ReplayLog.Match | runtime/record-replay.cpp:175-201 | True iff kind, victim (for steals) and the whole pedigree agree |
| ReplayLog.RoundTrip | runtime/record-replay.cpp:122-201 | Printing and loading yields an entry that matches exactly the recorded pedigree and victim if and only if no rank exceeds 2^63 - 1 and the victim of a steal fits 16 bits |
| ReplayLog.LostRank | runtime/record-replay.cpp:154-154 | The rank 2^63, which is printed in full, is read back as 2^63 - 1 |
| ReplayLog.ScanForMatchingSteals | runtime/record-replay.cpp:634-672 | In the victims' logs exactly the orphaned records that are the first with the pedigree of some steal are marked, and nothing else changes |
| ReplayLog.MarkedMeans | runtime/record-replay.cpp:634-672 | Marked with 0 are exactly the orphaned records that are the first with their pedigree in a log, if some steal from its worker has that pedigree; all else is as before |
| ReplayLog.FindOrphan | runtime/record-replay.cpp:651-668 | The record found is an orphaned one with the pedigree and no earlier one is; none is found only if there is none |
| ReplayLog.SameOrphan | runtime/record-replay.cpp:660-663 | Marking does not change which orphaned record is the first |
| ReplayLog.NextEntry | runtime/record-replay.cpp:207-231 | Skips exactly the orphaned records without a matching steal and never passes the end |
| FiberPool.Pools.constructor | runtime/cilk_fiber.cpp:234-273 | Empty pools with zero totals |
| FiberPool.Pools.FibersBounded | runtime/cilk_fiber.cpp:94-104 | The fibers in existence are the sum of all totals and never more than the sum of all limits, even where single totals are negative |
| FiberPool.Pools.Allocate | runtime/cilk_fiber.cpp:712-808 | The pools asked are a chain of parents; all but the last hold no fiber and may not, or cannot, create one; the last one serves, with the last fiber it holds or a new one counted there, or it is the root, cannot serve either, and nothing changes |
| FiberPool.Pools.FromPool | runtime/cilk_fiber.cpp:731-799 | One pool serves iff it holds a fiber or may create one and the heap has one |
| FiberPool.Pools.FromHeap | runtime/cilk_fiber.cpp:766-799 | Uses the heap only below the limit, and counts exactly the fibers obtained |
| FiberPool.Pools.Take | runtime/cilk_fiber.cpp:748-763 | The last fiber of the pool, in use from now on |
| FiberPool.Pools.Put | runtime/cilk_fiber.cpp:1001-1004 | The fiber becomes the last of the pool |
| FiberPool.Pools.Create | runtime/cilk_fiber.cpp:766-787 | A fiber from the heap is counted in the pool and in its high-water mark |
| FiberPool.Pools.Fail | runtime/cilk_fiber.cpp:789-799 | A heap failure undoes the count, not the high-water mark |
| FiberPool.Pools.MoveToParent | runtime/cilk_fiber.cpp:194-232 | The last fibers move until the parent is full or few enough are left, not more and not fewer; a negative total is handed over |
| FiberPool.Pools.MoveOne | runtime/cilk_fiber.cpp:213-216 | The last fiber of the child becomes the last of the parent |
| FiberPool.Pools.HandOver | runtime/cilk_fiber.cpp:224-229 | The sum of the totals is kept |
| FiberPool.Pools.FreeFibers | runtime/cilk_fiber.cpp:114-174 | Exactly the surplus, from the end of the pool, goes back to the heap and leaves the total; the fiber given becomes the last |
| FiberPool.Pools.FreeSome | runtime/cilk_fiber.cpp:136-172 | One round of at most a buffer full |
| FiberPool.Pools.TakeBatch | runtime/cilk_fiber.cpp:144-149 | Takes from the end until few enough are left or the buffer is full |
| FiberPool.Pools.TakeOut | runtime/cilk_fiber.cpp:143-150 | What leaves the pool leaves its total |
| FiberPool.Pools.Discount | runtime/cilk_fiber.cpp:101-104 | Exactly the total of this pool drops |
| FiberPool.Pools.Destroy | runtime/cilk_fiber.cpp:170-170 | One fiber ceases to exist |
| FiberPool.Pools.DestroyAll | runtime/cilk_fiber.cpp:169-171 | Exactly the buffered fibers cease to exist |
| FiberPool.Pools.DeallocateSelf | runtime/cilk_fiber.cpp:979-1030 | The fiber becomes the last of its pool; a full pool first gives its last fibers to its parent, as many as fit and at most down to half the limit plus a quarter of it, and exactly one to the heap if the parent is full or missing; no other fiber in use is touched |
| FiberPool.Pools.GiveToParent | runtime/cilk_fiber.cpp:1012-1020 | A full pool gives what its parent takes; the totals keep their sum |
| FiberPool.Pools.PutBack | runtime/cilk_fiber.cpp:1026-1029 | The fiber is put back, after one has gone to the heap if the pool is still full |

## Left out

- The work-stealing protocol, `__cilkrts_sync`, the frame stack, `setjmp`, stack switching, inline assembly: the model starts where a ready frame is taken and ends where its body does.
- Spin mutexes and atomic instructions: every critical section and every atomic update is one step.
- Widths of counters: `oldest_num_tasks`, `num_gens`, `incoming_count`, sizes and byte counters are unbounded integers; loop counts near the integer limit are not considered.
- A task names each object at most once, and all accesses of a task are issued before those of the next: the runtime relies on both.
- SerialEquivalence.SerialStore: programs use the two access entry points READ and WRITE; commutative accesses (COMMUT) are in the protocol but have no serial order to agree with. Bodies have a bound on their number of steps that does not depend on what they read.
- The low bit of a node's task pointer is a field of its own; that frames are aligned is not modelled.
- The bodies of tasks are not in the runtime: they are sequences of reads and writes of the objects they name, each step depending on all values read so far, between the start and the first release.
- What the writes of a lost append do to the frame that was taken, whose memory may have been reused: the model only says that the new frame is not in the list.
- Dataflow.StartKeeps: which worker may run a frame is a fixed relation; the frames that a release lets through go to the ready list at once, while the runtime gathers them in a list of the finishing task first.
- ObjMetadata.WakeupRefines: a release by a task that does not hold the object is excluded, as is an access with the group EMPTY.
- Renaming of objects, versions, payloads and the object traits of `dataflow_impl.c`: construction and destruction of payloads, not dependence.
- Reducers in static loops (`WITH_REDUCERS`), which are compiled out.
- Static loops whose node reservation fails in the compare-and-swap, whose master's node is busy or skipped, or that a system worker starts over several nodes: the code has no consistent reading there, so `StaticFor.UserLoop` and `StaticFor.SystemLoop` require the other cases.
- A worker that finds its slot clear for 128 rounds leaves and comes back: in the barrier this is a step that changes nothing.
- TreeBarrier.BarrierComplete: participants are numbered by reserved node and index; `StaticFor.SlotsDiffer` shows that the runtime's slots are as distinct.
- Reducer operations are pure functions on values: parallel reductions, exceptions, the `merging` flag and its error messages, `MERGE_UNORDERED` and forced reduction are not modelled.
- The hyperobject pointer of a slot, which its key determines; the dead store to `view` in `elem::destroy`.
- ReducerMap.CilkredMap.constructor: buckets and the array of buckets are sequences held by the map, so aliasing of bucket memory and its return to the frame allocator are not captured.
- ReducerTrees.Determinism: the merge of two maps is one step, and what a strand does to its own views before its map is merged is not a step: its map is given as it is when the strand ends.
- MapMerge.Merge: what the merged-away map itself looks like afterwards is not said, since its memory is freed.
- `repeated_merge_reducer_maps`: a loop of merges whose length depends on what the reduce operations do.
- Requests above 2048 bytes, the list of chunks and its release at shutdown, `USE_MMAP` and debug filling in the frame allocator. The operating system is a function from chunk numbers to addresses of disjoint chunks.
- The frame allocator of a worker after its cleanup, and fiber pools after they are destroyed: the code leaves both unusable.
- FiberPool.Pools.Allocate: the path under `USE_FIBER_TRY_ALLOCATE_FROM_POOL`, preallocation and per-thread fibers are not modelled; the heap is a function that may fail; limits do not change. An operation on the pools is one step; in the runtime other workers may use a pool while one of its fibers is being fetched from, or returned to, the heap.
- FiberPool.Pools.MoveToParent: the parent is looked at once, under its lock; the code first looks without it.
- CilkFor.NumaRecursive: the branch for clang; in the branch for gcc the low half is always spawned while the range update may drop the other one. Leaves are listed in the order in which one worker runs them.
- ReplayLog.Load: the text of records is that of printed pedigrees shorter than the 512-character buffer; malformed logs and files are not modelled.
- ReplayLog.NextEntry: the initial position in a log is not moved past a leading orphaned record by the code, so nothing is claimed of it.
- Windows, TBB, Cilkscreen, tracing, environment parsing, statistics: plumbing.
