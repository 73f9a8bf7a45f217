# Verified models of the systems projects

Dafny models of the hard cores of this repository, with proofs about all their runs:

* the free-list allocator of `malloc/` (`Tiling`, `FreeList`, `MmAlloc`, `HeapTheorems`);
* MapReduce, sequential and distributed (`KeyOrder`, `MapReduceSpec`, `JobFiles`,
  `MapReduce`, `Schedule`);
* the two-phase-commit key-value store: file store, log, follower ring, follower, leader
  (`KvStore`, `TpcLog`, `Ring`, `Follower`, `TwoPhase`);
* its supporting algorithms: MD5 buffering, the uthash table, the utlist mergesort and the
  request format (`Md5`, `UtHash`, `MergeSpec`, `ListSort`, `KvMessage`);
* the shell's tokenizer (`Tokenizer`);
* a few shared definitions (`Basics`).

`dafny verify dfyconfig.toml` checks everything.

Code that updates state in place is a class with methods proved against functions of the old
state; what the functions mean is then proved as lemmas. The environment is a parameter or a
nondeterministic step: `sbrk` may fail and may skip addresses; the file system is a map;
a network exchange may fail before or after the other side has acted; hash functions are
arbitrary, so they may collide.

## How the main results fit together

A method is proved equal to a specification function, and the function is then characterised
without reference to its own recursion: token lines by what was typed, digests by chains of
states, output files by their lines, groupings by a property with one solution, replies and
requests by their exact texts.

**Allocator.** `FreeList.Heap` says that the free list is one ascending circle from a zero-size
prologue, fully coalesced, and that free, live and prologue blocks exactly tile the memory
obtained. Every operation of `MmAlloc.Allocator` keeps it and leaves the contents of all other
live blocks alone. Both search loops are proved to terminate: a round of the circle that finds
nothing extends the heap, and the extension leaves a block that is large enough. Sizes are those
whose byte count sbrk does not take for a negative increment; `UnitsExact` shows that bound to be
exact. `Canonical`
shows that the free list is determined by what is live, whence freeing undoes allocating.

**MapReduce.** `IsGrouping` states the answer without reference to partitions; it has exactly
one solution. doMap, doReduce and merge are proved to compute it for every number of partitions
and every hash. `Schedule` is a state machine in which any call may fail at any moment and a
failed call's execution may go on, in a directory that may hold anything to begin with; its
invariant gives the sequential answer for every run, and `CompletesIff` says exactly which jobs can complete at all: schedule.go:36 indexes the input
files by reduce task number, so a job with more reduce tasks than files panics.

**Key-value store.** The leader never reads the votes (`2PCKVStore/tpcleader.c:210-212`) and a
follower applies a PUT or DELETE in phase one (`2PCKVStore/tpcfollower.c:139-168`). So "ABORT
rolls back" and "commit only if all voted commit" are false of the code. `AbortDoesNotRollBack`
and `VotesAreIgnored` give the inputs; `AbortRestoresIff` and `CommitUnanimousIff` say exactly
when a transaction does meet them, and `AbortsAlwaysRestoreIff` and `CommitsOnlyUnanimouslyIff`
say for which requests it does whatever the network does. "A transaction never logs both
decisions" fails when the client's own request is a COMMIT or an ABORT, which the leader
broadcasts like any other (`ClientAbortLogsBoth`); `OtherDecisionIff` says that nothing else
breaks it. `AgreementIff` says exactly when the replicas stay equal. A GET returns the stored
value exactly when it fits the 40-byte response body (`ReadBackIff`, `ServeThenGet`); beyond it
the source overruns the body and nothing is promised.

Exchanges go over the wire format: `Exchange` encodes the request, and the follower handles what
it decodes. `ReceivedIsSound` shows that whatever the leader has received survives this.

Where the code departs from its comments the model follows the code: a follower that is already
registered is refused once the leader is at capacity (`2PCKVStore/tpcleader.c:42-45` against
`48-52`), and a failed phase-two exchange is repeated with the same follower, because `continue`
in a do-while goes to the condition.

## Model

| member | source | states |
|---|---|---|
| FreeList.UnitsExact | malloc/mm_alloc.c:62 | In 64-bit arithmetic the block holds the request without a spare unit, and sbrk gets a non-negative byte count, exactly for sizes up to LARGEST. |
| FreeList.UnlinkChain | malloc/mm_alloc.c:68-71 | Pointing the predecessor past a block takes exactly it off the ascending circle. |
| FreeList.TakeWhole | malloc/mm_alloc.c:68-71 | Unlinking an exact fit keeps the heap well formed, with the block live. |
| FreeList.TakeTail | malloc/mm_alloc.c:72-77 | Splitting a larger block and handing out its upper part keeps the heap well formed and moves no other live block. |
| FreeList.GapUnique | malloc/mm_alloc.c:150-156 | At most one position of the circle is the place of a freed block. |
| FreeList.GapTest | malloc/mm_alloc.c:150-156 | The loop condition of mm_free and its wrap-around test together stop exactly at that position. |
| FreeList.GapIsNearest | malloc/mm_alloc.c:150-156 | The gap begins at the nearest free block below the freed one. |
| FreeList.ReleaseHeap | malloc/mm_alloc.c:158-178 | In all four joining cases the heap is well formed and fully coalesced afterwards, the freed units lie in one free block, and no other live block moves. |
| FreeList.GrowHeap | malloc/mm_alloc.c:211-216 | A fresh segment above all earlier memory, with its size written, is one more live block. |
| FreeList.PrologueHeap | malloc/mm_alloc.c:185-192 | The first header becomes a well-formed circle of one, also after an earlier failed initialisation. |
| FreeList.SearchStep | malloc/mm_alloc.c:64-93 | A step of mm_malloc past a small block extends the part known to be small; once round the circle, no block fits. |
| FreeList.FoundFit | malloc/mm_alloc.c:64-66 | Where the search stops is the first large enough block after the rover, and never the prologue. |
| MmAlloc.Allocator.Sbrk | malloc/mm_alloc.c:211-215 | The system call as assumed, for increments that are not negative: it fails, or hands out arbitrary contents above all earlier addresses; memory stays in one run unless it skips addresses. |
| MmAlloc.Allocator.Store | malloc/mm_alloc.c:79 | A client may store anywhere in the payload of a live block without harming the heap. |
| MmAlloc.Allocator.FindGap | malloc/mm_alloc.c:149-156 | From any rover position mm_free's search terminates, at the one gap that holds the block. |
| MmAlloc.Allocator.Coalesce | malloc/mm_alloc.c:158-177 | The two joins write only the headers of the freed block and its predecessor. |
| MmAlloc.Allocator.Segment | malloc/mm_alloc.c:211-216 | A failed sbrk changes nothing; otherwise the heap is valid with the whole segment as one more live block. |
| MmAlloc.Allocator.Prologue | malloc/mm_alloc.c:184-192 | A failed sbrk leaves the allocator uninitialised; otherwise the circle is the prologue alone. |
| MmAlloc.Allocator.InOneRun | malloc/mm_alloc.c:202-219 | While sbrk has left no gap, the memory obtained is contiguous. |
| MmAlloc.Allocator.Free | malloc/mm_alloc.c:138-179 | Freeing keeps the heap invariant, removes exactly that live block, keeps the contents of the others, leaves the freed units in one free block and the rover at the nearest free block below. |
| MmAlloc.Allocator.ExtendHeap | malloc/mm_alloc.c:202-219 | One sbrk call for the units asked for, at least 1024; failure changes nothing; success leaves a free block of at least the units asked for. |
| MmAlloc.Allocator.Init | malloc/mm_alloc.c:182-200 | Succeeds unless an sbrk call failed, and leaves a valid heap either way. |
| MmAlloc.Allocator.HandOut | malloc/mm_alloc.c:66-80 | The upper units of the chosen block become live, its header holds the size, the rover is the predecessor. |
| MmAlloc.Allocator.Search | malloc/mm_alloc.c:63-93 | The search terminates, extends the heap at most once, fails only if sbrk failed and then changes nothing, and is next-fit from the rover. |
| MmAlloc.Allocator.Malloc | malloc/mm_alloc.c:41-94 | For every size whose units do not wrap: null exactly on size 0 or an sbrk failure; otherwise a new live block with at least size payload bytes that overlaps no other; contents of all live blocks kept; next-fit when something fits. |
| MmAlloc.WritesKept | malloc/mm_alloc.c:158-177 | Header writes outside a set of blocks leave every unit of those blocks alone. |
| HeapTheorems.Conservation | malloc/mm_alloc.c:41-219 | Free units, live units and prologue headers add up to the units obtained from sbrk. |
| HeapTheorems.LiveBetween | malloc/mm_alloc.c:158-178 | On contiguous memory a live block lies between any two consecutive free ones. |
| HeapTheorems.FewFreeBlocks | malloc/mm_alloc.c:158-178 | On contiguous memory, which Run derives from contiguous sbrk calls, free blocks outnumber live ones by at most one. |
| HeapTheorems.Canonical | malloc/mm_alloc.c:41-179 | Two well-formed heaps over the same memory with the same live blocks have the same free list and sizes. |
| HeapTheorems.MallocThenFree | malloc/mm_alloc.c:41-179 | Freeing a block right after a fitting request restores the free list and all sizes. |
| HeapTheorems.Run | malloc/mm_alloc.c:41-219 | Every run of requests, releases and client writes keeps the invariant and conservation; the live blocks are exactly those the client holds; with contiguous sbrk the free blocks outnumber them by at most one. |
| JobFiles.AtoiItoa | distributed-systems/mapreduce/common.go:36-43 | Decimal numerals in file names determine the numbers. |
| JobFiles.PathInjective | distributed-systems/mapreduce/common.go:36-43 | Distinct intermediate, result and output files of a job have distinct paths. |
| JobFiles.PathExamples | distributed-systems/mapreduce/common.go:36-43 | The exact paths of an intermediate, a result and the output file. |
| KeyOrder.SortAscending | distributed-systems/mapreduce/common_reduce.go:64 | Sorting distinct keys gives the strictly ascending list of them. |
| KeyOrder.LessIff | distributed-systems/mapreduce/common_reduce.go:64 | The order is Go's: a proper prefix comes first, otherwise the first differing character decides. |
| KeyOrder.AscendingUnique | distributed-systems/mapreduce/common_reduce.go:60-64 | A strictly ascending list is determined by its members, so map iteration order does not matter. |
| MapReduceSpec.GroupByIsGrouping | distributed-systems/mapreduce/common_reduce.go:41-73 | Grouping gives exactly the emitted keys, strictly ascending, each with the reduction of its values in emission order. |
| MapReduceSpec.GroupingUnique | distributed-systems/mapreduce/common_reduce.go:41-73 | There is only one such output. |
| MapReduceSpec.EmittedPieces | distributed-systems/mapreduce/common_map.go:47-51 | What is emitted is mapF of each input's name and contents, input after input. |
| MapReduceSpec.ValuesOfAt | distributed-systems/mapreduce/common_reduce.go:49-56 | The values of a key are those at all its positions, in order. |
| MapReduceSpec.TextLines | distributed-systems/mapreduce/master_splitmerge.go:46-48 | The output text is cut into lines, each the key, a colon and a space, the value and a newline. |
| MapReduceSpec.CollectedIsPart | distributed-systems/mapreduce/common_map.go:52-67 | What a reduce task collects over all map tasks is its partition of everything emitted, in order. |
| MapReduceSpec.PartValues | distributed-systems/mapreduce/common_map.go:58-65 | Partition r has exactly the keys whose hash modulo nReduce is r, with all their values in order. |
| MapReduceSpec.ResultLookup | distributed-systems/mapreduce/common_reduce.go:14-75 | A reduce result holds exactly its partition's keys, with the reductions of all their values. |
| MapReduceSpec.MergedLookup | distributed-systems/mapreduce/master_splitmerge.go:16-34 | Entering the results one after the other never overwrites a key of another partition. |
| MapReduceSpec.MergeIsAnswer | distributed-systems/mapreduce/master_splitmerge.go:14-51 | The merged listing is the answer, independent of nReduce and the hash. |
| MapReduce.SortedKeys | distributed-systems/mapreduce/master_splitmerge.go:35-39 | The keys of a map, collected in any order and sorted, ascend strictly and are exactly its keys. |
| MapReduce.Encode | distributed-systems/mapreduce/common_map.go:58-65 | The pairs encoded into file r are the map task's partition r, in order. |
| MapReduce.Decode | distributed-systems/mapreduce/common_reduce.go:49-56 | Decoding a file appends its values per key behind those seen before. |
| MapReduce.ReduceKeys | distributed-systems/mapreduce/common_reduce.go:59-73 | The written pairs are the grouping of everything decoded. |
| MapReduce.EnterFile | distributed-systems/mapreduce/master_splitmerge.go:25-32 | A result file is entered into the merge map, later pairs last. |
| MapReduce.WriteLines | distributed-systems/mapreduce/master_splitmerge.go:46-48 | The output text is one "key: value" line per key, in the order of the keys. |
| MapReduce.WithPartsLookup | distributed-systems/mapreduce/common_map.go:52-67 | After n partitions exactly those n files of the map task are written, with their parts. |
| MapReduce.GatheredIsCollected | distributed-systems/mapreduce/common_reduce.go:42-58 | With the specified intermediate files present, a reduce task reads exactly its collected partition. |
| MapReduce.MergedFilesIsMap | distributed-systems/mapreduce/master_splitmerge.go:17-34 | With the specified result files present, merge builds the specified map. |
| MapReduce.SharedFiles.DoMap | distributed-systems/mapreduce/common_map.go:14-68 | All nReduce files of the map task get their partitions of mapF of the input's name and contents, and no other file changes. |
| MapReduce.SharedFiles.DoReduce | distributed-systems/mapreduce/common_reduce.go:14-75 | Fails exactly when an intermediate file is missing; otherwise only its result file changes, to the grouping of what it read. |
| MapReduce.SharedFiles.Merge | distributed-systems/mapreduce/master_splitmerge.go:14-51 | Fails exactly when a result file is missing; otherwise writes the merged map as "key: value" lines in ascending key order. |
| MapReduce.SharedFiles.MapPhase | distributed-systems/mapreduce/master.go:62-65 | Leaves every intermediate file with its specified content. |
| MapReduce.SharedFiles.ReducePhase | distributed-systems/mapreduce/master.go:66-69 | Leaves every result file with its specified content. |
| MapReduce.SharedFiles.Sequential | distributed-systems/mapreduce/master.go:55-75 | Every job with nReduce >= 1 writes its answer line by line, whatever files were there before. |
| Schedule.StepInv | distributed-systems/mapreduce/schedule.go:30-47 | Every step of the master, the workers and the network keeps the invariant. |
| Schedule.RunsInv | distributed-systems/mapreduce/schedule.go:30-47 | Hence every run keeps it. |
| Schedule.WorkedContent | distributed-systems/mapreduce/common_map.go:52-67 | The next file any execution writes, current or stale, has its specified content. |
| Schedule.ReplyFinished | distributed-systems/mapreduce/schedule.go:38-41 | A call that returns true has left all files of its task. |
| Schedule.BarrierInv | distributed-systems/mapreduce/schedule.go:47 | The barrier opens only when all intermediate files are present. |
| Schedule.ResultsComplete | distributed-systems/mapreduce/schedule.go:47 | When all reduce tasks have finished, every result file has been written. |
| Schedule.MergeOutput | distributed-systems/mapreduce/master.go:110-113 | What merge writes after the reduce barrier is the answer, one "key: value" line per pair. |
| Schedule.DistributedIsSequential | distributed-systems/mapreduce/schedule.go:30-47 | In every run with any failures, lost replies, stale executions and leftover files, each file is as found or right, intermediate files are complete after the map barrier and result files at the reduce barrier, and the merged output is the sequential answer. |
| Schedule.TokensConserved | distributed-systems/mapreduce/schedule.go:38-44 | Each registration's token is waiting, held by one task or dropped; calls are at most all tasks plus all registrations. |
| Schedule.Progress | distributed-systems/mapreduce/schedule.go:38-41 | From every reachable state some step brings any unfinished task nearer to its end. |
| Schedule.CanFinish | distributed-systems/mapreduce/master.go:100-118 | From every reachable state the run can still be completed, if there are at least as many files as reduce tasks. |
| Schedule.CompletesIff | distributed-systems/mapreduce/schedule.go:36 | Some run of the job completes if and only if nReduce is at most the number of input files. |
| KvStore.PackRoundTrip | 2PCKVStore/kvstore.c:56-62 | Reading a packed entry gives back its key and value. |
| KvStore.MoveLastKeeps | 2PCKVStore/kvstore.c:177-193 | Moving the last entry into the hole removes exactly the deleted key and keeps the chain well formed. |
| KvStore.AppendKeeps | 2PCKVStore/kvstore.c:118-137 | Appending a missing key adds exactly that binding. |
| KvStore.UpdateKeeps | 2PCKVStore/kvstore.c:115-137 | Rewriting an entry changes exactly that binding. |
| KvStore.FindIsLookup | 2PCKVStore/kvstore.c:36-70 | Searching a key's chain is looking it up in the denoted map. |
| KvStore.DenotesUpdate | 2PCKVStore/kvstore.c:102-196 | Replacing one chain changes only the bindings of its hash. |
| KvStore.Store.FindEntry | 2PCKVStore/kvstore.c:36-70 | Finds the position and value of exactly the keys of the map, with each error code in its case. |
| KvStore.Store.Get | 2PCKVStore/kvstore.c:78-84 | Returns the map's value, or the error of each case. |
| KvStore.Store.ChainEnd | 2PCKVStore/kvstore.c:120-124 | The scan for a free position stops at the chain's length. |
| KvStore.Store.Put | 2PCKVStore/kvstore.c:102-141 | Success is the map update; each error has its code and changes nothing. |
| KvStore.Store.DelCheck | 2PCKVStore/kvstore.c:145-154 | The check's code is decided by key length, directory and membership in the map. |
| KvStore.Store.Del | 2PCKVStore/kvstore.c:159-196 | Success removes exactly the key from the map; an error changes nothing. |
| TpcLog.LoadImage | 2PCKVStore/tpclog.c:43-104 | A complete record file loads back to its type, key and value. |
| TpcLog.LoadPrefix | 2PCKVStore/tpclog.c:88-104 | A torn file loads exactly when header, data and two more bytes arrived, and then to the whole record. |
| TpcLog.NumberedAppend | 2PCKVStore/tpclog.c:51-56 | Writing file nextid keeps the numbering gap-free. |
| TpcLog.Log.Init | 2PCKVStore/tpclog.c:16-37 | Restores nextid from the files that are there. |
| TpcLog.Log.CountFiles | 2PCKVStore/tpclog.c:32-35 | The scan counts all files, torn ones included. |
| TpcLog.Log.Append | 2PCKVStore/tpclog.c:43-83 | Appends exactly one record for the four loggable types, with key and value for a PUT and the key for a DELETE, and refuses the others. |
| TpcLog.Log.CrashInAppend | 2PCKVStore/tpclog.c:43-83 | A crash at any point, then a restart, keeps files 0..nextid-1 and all earlier records. |
| TpcLog.Log.IterateBegin | 2PCKVStore/tpclog.c:109 | Afterwards every record is still to be read, oldest first. |
| TpcLog.Log.IterateNext | 2PCKVStore/tpclog.c:129-141 | Takes the oldest unread record off the iteration and returns it if it was not torn. |
| TpcLog.Log.ReadAll | 2PCKVStore/tpclog.c:109-141 | With no torn file, iteration returns exactly the appended records in order. |
| Ring.SplicedLinks | 2PCKVStore/tpcleader.c:80-97 | The four link writes insert one member into the circle, prev and next staying inverse. |
| Ring.WalkVisitsOnce | 2PCKVStore/tpcleader.c:152-164 | Following next from any follower of a leader meets each of its followers exactly once and nothing else, and then the first again. |
| Ring.FollowWalks | 2PCKVStore/tpcleader.c:131-136 | Any number of next links leads to the follower that many positions further round the ring. |
| Ring.Leader.Splice | 2PCKVStore/tpcleader.c:80-83 | In-place insertion before the found member gives the circle with the new member. |
| Ring.Leader.FindPlace | 2PCKVStore/tpcleader.c:76-92 | The search terminates at the least id not below the new one, or wraps exactly when there is none. |
| Ring.Leader.Register | 2PCKVStore/tpcleader.c:47-103 | Succeeds exactly below capacity; inserts a new id in order with its host and port, ignores a known one, and keeps one ascending circle with an exact count. |
| Ring.RegisterAll | 2PCKVStore/tpcleader.c:47-103 | After any run of registrations the followers are exactly the accepted ids, each with the host and port of the first accepted registration with its id. |
| Ring.Leader.GetPrimary | 2PCKVStore/tpcleader.c:110-126 | Null below capacity; a null pointer is followed exactly when the capacity is 0; otherwise the least id above the hash, or the head. |
| Ring.Leader.GetSuccessor | 2PCKVStore/tpcleader.c:131-136 | The next member of the circle. |
| Follower.VoteIsEffect | 2PCKVStore/tpcfollower.c:139-168 | A follower votes commit exactly when the request has taken effect; otherwise nothing changed. |
| Follower.ReplyCases | 2PCKVStore/tpcfollower.c:139-177 | The vote, acknowledgement or error of every request that is no GET, and the store after it, case by case. |
| Follower.LookupCases | 2PCKVStore/tpcfollower.c:124-137 | The answer to a GET in each case: overlong key, missing key, value that fits, value that does not. |
| Follower.LoggedCases | 2PCKVStore/tpcfollower.c:139-173 | The record each kind of request leaves in the log. |
| Follower.UnchangedIff | 2PCKVStore/tpcfollower.c:139-168 | A request leaves the store as it is exactly when it is no PUT or DELETE, is refused, or puts the value that is there. |
| Follower.ReadBackIff | 2PCKVStore/tpcfollower.c:133-135 | A value that PUT accepts can be read back if and only if it has at most 40 characters. |
| Follower.LongValueOverruns | 2PCKVStore/tpcfollower.c:135 | A PUT of 41 characters is accepted and its GET overruns the response body. |
| Follower.Server.Put | 2PCKVStore/tpcfollower.c:84-90 | The checks and the update of the map. |
| Follower.Server.Del | 2PCKVStore/tpcfollower.c:105-111 | The checks and the removal from the map. |
| Follower.Server.HandleTpc | 2PCKVStore/tpcfollower.c:120-178 | Store, log and reply after each kind of request; a GET answers the value, "error: no key" or "error: improper key length", and nothing is promised when the value overruns the response body. |
| TwoPhase.DecidedLog | 2PCKVStore/tpcleader.c:225-244 | Phase two logs only the decision at a follower, once per handled exchange and at least once. |
| TwoPhase.DecisionAgreement | 2PCKVStore/tpcleader.c:201-244 | Whatever fails, phase two appends the one decision and nothing else at every follower, at least once; before it at most the request is logged, and the store changes exactly if phase one reached it. |
| TwoPhase.OtherDecisionIff | 2PCKVStore/tpcleader.c:201-244 | A transaction logs the opposite of its decision at a follower if and only if the client's request was that opposite and was delivered. |
| TwoPhase.ClientAbortLogsBoth | 2PCKVStore/tpcleader.c:274-275 | A client's ABORT request that everyone answers is logged and then committed. |
| TwoPhase.AgreementIff | 2PCKVStore/tpcleader.c:201-217 | Equal stores stay equal exactly when the request reached all followers, or none, or changes nothing. |
| TwoPhase.AbortDoesNotRollBack | 2PCKVStore/tpcfollower.c:169-173 | A run in which an aborted PUT stays in one store. |
| TwoPhase.AbortRestoresIff | 2PCKVStore/tpcleader.c:219-244 | An aborted transaction leaves every store as it was if and only if the request changes nothing wherever it was delivered. |
| TwoPhase.AbortsAlwaysRestoreIff | 2PCKVStore/tpcleader.c:219-244 | On equal stores every possible abort restores them if and only if the request is no PUT or DELETE, is refused, or puts the value that is there. |
| TwoPhase.VotesAreIgnored | 2PCKVStore/tpcleader.c:210-212 | A run in which every follower votes no and the leader commits. |
| TwoPhase.CommitUnanimousIff | 2PCKVStore/tpcleader.c:206-223 | A commit was voted for by all followers if and only if the request is valid at every one of them. |
| TwoPhase.CommitsOnlyUnanimouslyIff | 2PCKVStore/tpcleader.c:206-223 | On equal stores every possible commit is unanimous if and only if key and value lengths are legal and a deleted key is present; of the requests a leader can receive, only deletes of missing keys fail. |
| TwoPhase.ReceivedIff | 2PCKVStore/kvmessage.c:13-69 | The requests of a sendable kind that a leader can have received are exactly the sound and accepted ones. |
| TwoPhase.ReceivedForwardable | 2PCKVStore/tpcleader.c:219-223 | A received request, and the decision about it, can be forwarded without loss. |
| TwoPhase.AgreeStep | 2PCKVStore/tpcleader.c:201-217 | A transaction whose request reached all followers takes equal stores to equal stores. |
| TwoPhase.Serve | 2PCKVStore/tpcleader.c:179-252 | After any run of transactions with all phase-one exchanges answered, all stores denote the fold of the requests. |
| TwoPhase.ServeThenGet | 2PCKVStore/tpcleader.c:142-169 | A GET then answers the map's value if it fits the response body, "error: no key" if there is none and "error: improper key length" for an overlong key, whichever followers are reachable. |
| TwoPhase.Cluster.Exchange | 2PCKVStore/tpcleader.c:202-215 | Sent over the wire format and decoded by the follower, the request that is handled is the very one the leader meant; no other follower changes. |
| TwoPhase.Cluster.PhaseOne | 2PCKVStore/tpcleader.c:200-217 | Polls every follower once; abort exactly if some exchange was not answered. |
| TwoPhase.Cluster.PhaseTwo | 2PCKVStore/tpcleader.c:224-244 | The retry loop terminates when each follower fails finitely often, and concludes with every follower. |
| TwoPhase.Cluster.HandleTpc | 2PCKVStore/tpcleader.c:179-252 | For every request the leader can receive: SUCCESS exactly if the decision was COMMIT; below capacity nothing is sent; a leader of capacity 0 crashes. |
| TwoPhase.Cluster.HandleGet | 2PCKVStore/tpcleader.c:142-169 | The first reachable follower from the primary on answers, value or error as its store has it; otherwise an error; a leader of capacity 0 crashes. |
| Md5.AuxiliaryFunctions | 2PCKVStore/md5.c:51-55 | The rewritten F, G, H, H2 and I are the functions of section 3.4 of RFC 1321. |
| Md5.CounterStep | 2PCKVStore/md5.c:207-210 | The carry test keeps lo and hi equal to the total's low 29 and next 32 bits, for every size. |
| Md5.CountersEncode | 2PCKVStore/md5.c:254-262 | lo and hi encode the bytes modulo 2^61, so the length field is the bit count modulo 2^64. |
| Md5.FoldConcat | 2PCKVStore/md5.c:87-191 | Folding two block sequences in turn is folding their concatenation. |
| Md5.FoldChaining | 2PCKVStore/md5.c:99-183 | Folding is a chain of states, one per block boundary, each block compressed once and in order. |
| Md5.PaddedShape | 2PCKVStore/md5.c:236-262 | The padded message is the message, 0x80, fewest zeros, and the bit length modulo 2^64, low-order byte first. |
| Md5.ShortMessage | 2PCKVStore/md5.c:236-264 | A message of at most 55 bytes is compressed as the one block that section 3 of RFC 1321 describes. |
| Md5.InitialBytes | 2PCKVStore/md5.c:193-197 | The chaining variables start as the sixteen bytes of section 3.3 of RFC 1321. |
| Md5.FinalBlocks | 2PCKVStore/md5.c:236-262 | One or two last blocks complete the padding of sections 3.1 and 3.2 of RFC 1321. |
| Md5.LengthBytes | 2PCKVStore/md5.c:254-262 | The eight bytes written from the counters are the length, low-order byte first. |
| Md5.FillBlock | 2PCKVStore/md5.c:212-226 | Completing the open block continues the fold over the message. |
| Md5.WholeBlocks | 2PCKVStore/md5.c:228-233 | Whole blocks and rest of the input are those of the message. |
| Md5.Context.Body | 2PCKVStore/md5.c:87-191 | The block loop folds the block function over its data, which by FoldChaining compresses each block once, in order. |
| Md5.Context.Count | 2PCKVStore/md5.c:207-210 | The counters stay the total's low and high parts. |
| Md5.Context.Feed | 2PCKVStore/md5.c:228-233 | State and buffer are the fold of the whole blocks and the tail. |
| Md5.Context.Update | 2PCKVStore/md5.c:203-234 | Adds its data to the message, whatever the state of the buffer. |
| Md5.Context.PutLength | 2PCKVStore/md5.c:254-262 | Writes the 64-bit length and nothing else. |
| Md5.Context.Final | 2PCKVStore/md5.c:236-264 | The state after the last block is the digest of the padded message; Sum adds the output bytes. |
| Md5.Hash | 2PCKVStore/md5.c:193-264 | Any cutting of a message into chunks chains the initial state through the blocks of the padded whole. |
| Md5.OutputExact | 2PCKVStore/md5.c:266-281 | The sixteen result bytes determine the four words of the digest state. |
| Md5.Sum | 2PCKVStore/md5.c:193-284 | From the initial words on, any cutting into chunks gives the bytes of the last chained state, low-order byte first as in section 3.5 of RFC 1321. |
| UtHash.MaskIsMod | 2PCKVStore/uthash.h:211-214 | Masking with a power of two less one is the remainder. |
| UtHash.IdealIsCeiling | 2PCKVStore/uthash.h:730-731 | The shift-and-mask bound is items over doubled buckets, rounded up. |
| UtHash.ExactlyPush | 2PCKVStore/uthash.h:661-669 | Pushing an item keeps every item in exactly the chain of its hash. |
| UtHash.ExactlyRemove | 2PCKVStore/uthash.h:677-687 | Removing one keeps it for all others. |
| UtHash.ExcessPush | 2PCKVStore/uthash.h:739-742 | Counting an item as non-ideal exactly when its chain is over the bound sums up all excess lengths. |
| UtHash.MultMeans | 2PCKVStore/uthash.h:739-742 | The expansion multiple is the number of ideal lengths in an overlong chain, and 0 otherwise. |
| UtHash.Table.FillsIff | 2PCKVStore/uthash.h:670-671 | An item makes the table double exactly when its bucket reaches ten items per multiple plus one and expansion is allowed. |
| UtHash.LinkFront | 2PCKVStore/uthash.h:661-669 | The front link keeps hh_next and hh_prev inverse in every chain. |
| UtHash.PushFront | 2PCKVStore/uthash.h:661-669 | Bucket head, count and links describe the chain with the new item. |
| UtHash.MoveItem | 2PCKVStore/uthash.h:736-747 | One step of doubling puts the item into its new bucket and keeps non-ideal count and multiples exact. |
| UtHash.Redistribute | 2PCKVStore/uthash.h:734-749 | An old chain is moved whole, although its links are overwritten on the way. |
| UtHash.Rehash | 2PCKVStore/uthash.h:733-750 | All items end in exactly the new buckets of their hashes. |
| UtHash.OrderAppend | 2PCKVStore/uthash.h:190-201 | The insertion order gains the item at its end. |
| UtHash.OrderUnlink | 2PCKVStore/uthash.h:240-253 | The insertion order loses exactly the item; head and tail are right. |
| UtHash.ChainUnlink | 2PCKVStore/uthash.h:677-687 | The bucket chain loses exactly the item. |
| UtHash.RemoveFrom | 2PCKVStore/uthash.h:677-687 | Bucket head, count and links describe the chains without the item. |
| UtHash.FindInBucket | 2PCKVStore/uthash.h:642-658 | Returns an item with the key exactly if the chain has one. |
| UtHash.Table.MakeTable | 2PCKVStore/uthash.h:153-172 | A new table has 32 empty buckets and cleared counters. |
| UtHash.Table.Expand | 2PCKVStore/uthash.h:718-762 | Buckets double, items stay exactly indexed, the bound is the ceiling of items over buckets, and expansion stops after two ineffective rounds. |
| UtHash.Table.AddToBucket | 2PCKVStore/uthash.h:661-674 | Doubles exactly when the bucket reaches its threshold and expansion is allowed, and then leaves the chain bound, the multiples and the non-ideal count exact. |
| UtHash.Table.Add | 2PCKVStore/uthash.h:187-209 | Appends to the insertion order and keeps the table invariant: exact buckets, exact counts, power-of-two size; after a doubling the chain bound is the ceiling of items over buckets. |
| UtHash.Table.Delete | 2PCKVStore/uthash.h:228-259 | Removes exactly the item and keeps the invariant; the last item takes the table with it. |
| UtHash.Table.Find | 2PCKVStore/uthash.h:104-115 | Returns an item with the key if and only if the insertion order has one. |
| MergeSpec.MergeSorted | 2PCKVStore/utlist.h:236-273 | Merging sorted runs gives a sorted run. |
| MergeSpec.MergeStable | 2PCKVStore/utlist.h:236-273 | Merging keeps the order of equivalent elements, left run first. |
| MergeSpec.PassRuns | 2PCKVStore/utlist.h:219-275 | A pass of width k turns sorted runs of length k into sorted runs of length 2k. |
| MergeSpec.PassStable | 2PCKVStore/utlist.h:219-275 | A pass keeps the order of equivalent elements. |
| MergeSpec.PassMembers | 2PCKVStore/utlist.h:219-275 | A pass is a permutation. |
| MergeSpec.BottomUpCorrect | 2PCKVStore/utlist.h:208-286 | For every total preorder the passes give a sorted, stable permutation. |
| ListSort.Append | 2PCKVStore/utlist.h:262-272 | Appending keeps prev the inverse of next. |
| ListSort.Advance | 2PCKVStore/utlist.h:225-234 | Steps over one run and counts it. |
| ListSort.MergeRuns | 2PCKVStore/utlist.h:236-273 | The relinking loop computes the stable merge of the two runs in place. |
| ListSort.OnePass | 2PCKVStore/utlist.h:219-278 | One pass relinks the list into the specified pass and counts merges exactly enough to know when to stop. |
| ListSort.Sort | 2PCKVStore/utlist.h:208-286 | Terminates on every list; the result is a well-linked doubly linked permutation, sorted and stable for every total preorder. |
| Tokenizer.Tokenize | shell/tokenizer.c:27-98 | The loop over the fixed buffer computes the state machine whose meaning TokenizeLine, OverlongAborts, UnclosedQuote and TrailingBackslash state. |
| Tokenizer.OneChar | shell/tokenizer.c:49-88 | The loop body is one transition of the state machine. |
| Tokenizer.ScanConcat | shell/tokenizer.c:48-90 | Scanning two pieces in turn is scanning their concatenation unless a backslash is cut from its character. |
| Tokenizer.ScanPrefix | shell/tokenizer.c:48-90 | Tokens already found do not influence the scan. |
| Tokenizer.TokenizeDistributes | shell/tokenizer.c:48-96 | tokenize(a + space + b) is tokenize(a) + tokenize(b) when a ends outside quotes and without a live backslash. |
| Tokenizer.NoEmptyToken | shell/tokenizer.c:60-63 | No token is ever empty. |
| Tokenizer.EscapedScan | shell/tokenizer.c:55-58 | An escaped word is scanned to the word. |
| Tokenizer.RoundTrip | shell/tokenizer.c:27-98 | Any nonempty words of at most 4094 characters, escaped and joined by spaces, tokenize back to themselves. |
| Tokenizer.TokenizeLine | shell/tokenizer.c:27-98 | Any line of words, each made of bare, single-quoted and double-quoted pieces with any characters escaped, in any spacing, tokenizes to exactly the words' characters; adjacent pieces join. |
| Tokenizer.ScanWord | shell/tokenizer.c:50-89 | The pieces of a word go to one token, or abort past 4094 characters. |
| Tokenizer.OverlongAborts | shell/tokenizer.c:89 | A word of more than 4094 characters aborts, whatever follows. |
| Tokenizer.BareText | shell/tokenizer.c:65-67 | A word without spaces, quotes and backslashes is its own token. |
| Tokenizer.QuotedText | shell/tokenizer.c:68-88 | Text in quotes is one token, spaces included. |
| Tokenizer.UnclosedQuote | shell/tokenizer.c:68-96 | An unclosed quote runs to the end of the line. |
| Tokenizer.TrailingBackslash | shell/tokenizer.c:55-58 | A backslash at the end of the line is ignored. |
| KvMessage.NoMatchAcrossAmpersand | 2PCKVStore/liburl.c:22-34 | A parameter whose '=' follows the next '&' matches neither name. |
| KvMessage.StoreParam | 2PCKVStore/liburl.c:71-83 | Stores exactly the text between '=' and '&', cut to the buffer, under the matching name. |
| KvMessage.UrlDecode | 2PCKVStore/liburl.c:36-88 | The pointer-walking loop computes the recursive decoding. |
| KvMessage.DecodeNext | 2PCKVStore/liburl.c:67-84 | A parameter is stored and decoding goes on behind its '&'. |
| KvMessage.DecodeLast | 2PCKVStore/liburl.c:67-84 | The last parameter is stored, '=' and '?' in its data included. |
| KvMessage.UrlRoundTrip | 2PCKVStore/liburl.c:36-104 | Decoding an encoded url gives back path, key and value. |
| KvMessage.HttpReceive | 2PCKVStore/libhttp.c:21-65 | The parsing loop computes method and path of the request line. |
| KvMessage.MethodNames | 2PCKVStore/libhttp.c:146-171 | Method names and methods are inverse tables. |
| KvMessage.MessageRoundTrip | 2PCKVStore/libhttp.c:208-232 | Receiving a built message gives back method and url. |
| KvMessage.MessageFits | 2PCKVStore/kvmessage.c:143-162 | Every request within bounds fits the declared buffers. |
| KvMessage.RequestRoundTrip | 2PCKVStore/kvmessage.c:13-69 | Sending then receiving recovers type, key and value if and only if the receiver accepts that kind with those fields. |
| KvMessage.WireForms | 2PCKVStore/kvmessage.c:111-162 | The exact text of each kind of request on the wire, and that it is understood as that request. |
| KvMessage.OtherForms | 2PCKVStore/kvmessage.c:28-61 | What becomes of requests with a missing key, value or path and of unknown paths. |
| KvMessage.NameMatches | 2PCKVStore/liburl.c:22-34 | Every prefix of "key" or "val" sets that field, the empty name the key, cut to its buffer; no other name sets anything. |
| KvMessage.NoEquals | 2PCKVStore/liburl.c:63-84 | Stretches without '=' are passed over. |
| KvMessage.PathIsCut | 2PCKVStore/liburl.c:40-52 | At most eight characters of the path count. |
| KvMessage.ReceiveShape | 2PCKVStore/libhttp.c:21-65 | A received message is a method, a space and a path up to a space or newline. |
| KvMessage.ShapeReceived | 2PCKVStore/libhttp.c:21-65 | Every such message is received as that method and path. |
| KvMessage.ReceivedIsSound | 2PCKVStore/kvmessage.c:13-69 | Whatever bytes arrive, a request that is understood fits the structs, is free of unsendable characters, and is accepted again when forwarded. |

## Left out

- mm_realloc: its shrink path frees a remainder whose header size is never written, and its grow path copies the new size out of the smaller block, so the heap invariant does not hold through it.
- MmAlloc.Allocator.Malloc: does not cover sizes above LARGEST, for which the unit arithmetic wraps or sbrk gets a negative increment (UnitsExact shows that the bound is exact).
- MmAlloc.Allocator.Free: only live pointers and null are freed; freeing anything else is undefined in the source.
- Md5.Context.Body: the 64-step block function is a parameter; only the round functions F, G, H and I are modelled.
- Md5.Context.Update: sizes are below 2^64, the range of the source's unsigned long.
- MapReduce.SharedFiles.DoMap: creating and filling a file is one step, so a reader never sees a truncated file; JSON encoding is taken to be lossless and unreadable inputs, on which the worker dies, are not modelled.
- MapReduce.SharedFiles.Sequential: nReduce = 0 is not covered; doMap then writes nothing.
- Schedule: RPC transport, the worker accept loop, killWorkers and the collected statistics; a call's outcome is a nondeterministic step.
- Schedule.CanFinish: says that a run can be completed, not that a scheduler must complete it; without a live worker the source waits forever.
- KvStore.Store.Put: file operations succeed and store operations run one at a time; the source drops its read lock before taking the write lock.
- KvStore: kvstore_clean, and file names longer than the name buffer.
- TpcLog.Log.Append: file operations succeed; tpclog_clear_log is left out, since a crash inside it breaks the numbering.
- Ring.Leader.Register: registrations run one at a time (capacity is tested before the lock is taken); ids are arbitrary hashes of the address, and the leader's redundancy field, which is never used, is left out.
- Follower.Server.HandleTpc: recovery from the log is a stub in the source and rollback does not exist, so neither is modelled; file errors are left out.
- TwoPhase.Cluster.PhaseTwo: the failing exchanges of each follower are a finite list; with a follower that never answers the source loops forever.
- TwoPhase.ServeThenGet: what happens after a response body has been overrun is undefined in the source and not modelled.
- TwoPhase: sockets, threads, locks and the work queue.
- UtHash.Table.Add: the item's hash value is fixed with its key instead of being stored on insertion; memory exhaustion, which ends the program, and counters beyond 32 bits are left out, as are the Bloom filter, HASH_SRT and HASH_SELECT.
- ListSort.Sort: integer overflow of the run width; LL_SORT2 (2PCKVStore/utlist.h:128-204) is the same loop without the prev links and has no separate model.
- Tokenizer.Tokenize: a null line, memory exhaustion and isspace outside the C locale.
- KvMessage.UrlDecode: urls begin with '/', which the receiver checks before decoding.
- KvMessage.HttpReceive: works on the bytes of one read; responses (http_response_receive, kvresponse_send) would only add similar members.
- httpserver, the interactive shell, index pages, main programs and scripts.
