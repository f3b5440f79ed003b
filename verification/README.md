# A verified model of the runtime and its OpenVINO tooling

The program is an edge-inference runtime (memory pools, a task ring, a camera frame
converter) shipped together with OpenVINO's samples and Python frontends. This project
restates its self-contained algorithms in Dafny and proves what callers rely on. Each
module follows one source file; code that changes things in place stays imperative
(classes with fields, loops over arrays, methods with frames), and each method is tied by
its contract to a specification about which the results below are proved.

| module | component |
|---|---|
| `PagePool` | the page allocator run by one thread at a time: exact first fit, rollback, `used`/`peak_used` over whole runs |
| `PagePoolThreads` | the same allocator with any number of threads, one atomic flag operation per step |
| `GpuTable` | DRM buffers: a locked table between unlocked system calls, any interleaving |
| `TaskRing` | the ring of tasks, as an object and between one producer and one consumer, one statement per step |
| `InferQueue`, `Measurement` | the request pool (mutex, condition variable, callbacks, exceptions) and the benchmark loop that drives it |
| `Gptq`, `GptqPatching` | 4-bit weight layouts and the patching of GPTQ modules |
| `Packing` | packing 1-bit and 4-bit values into bytes |
| `Jaxpr`, `TorchScriptPasses` | decoding a jaxpr; rewriting constants of a TorchScript graph |
| `InputsFilling` | filling tensors from images, raw files and random draws |
| `DeviceValues`, `InputParameters` | the command-line grammars for per-device values and per-input parameters |
| `Counters`, `Nv12` | averaging performance counters; NV12 to RGB |
| `Indexing`, `Text`, `Wrappers` | row-major index arithmetic, looking for characters, option and result types |

Concurrent parts are state machines: a `State`, what is `Enabled`, and `Next`. Their
invariants are proved for one arbitrary step and then for every finite run. `Solo` and
`AloneIsSequential` connect the threaded allocator with the sequential one.

Where the code does less than its comments or callers suggest, the model keeps the code
as it is and the contracts say exactly when it works:

- A failed allocation leaves the free tail of the pool marked as taken for ever
  (`PagePool.AllocIsFirstFit`, `PagePoolThreads.StrandedForever`), and freeing an allocation
  gives back its first page only, so that it undoes the allocation exactly when that is one
  page long (`PagePool.FreeUndoesExactly`).
- The +17 trick for GPTQ zero points is right exactly when no zero point that shares the
  byte up to the one in question is 15, or the scale is 0 (`Gptq.DequantisedIsReference`);
  the symmetric path is right exactly when the zero point is 7 or the scale is 0
  (`Gptq.DequantisedSymIsReference`). `GptqPatching.PatchedIsReference` says so of patched modules.
- Patching a GPTQ model twice equals patching it once exactly unless the first module that
  cannot be patched is in order but for the number of its scales. Then the second attempt
  takes it for patched and goes on behind it (`GptqPatching.PatchAllTwice`,
  `GptqPatching.SecondRunDiffers`; `GptqPatching.IndivisibleExists` shows such a module).
  Unpatching leaves `is_quantized` false and the recorded `width` (`GptqPatching.UnpatchRestores`).
- In inference-only mode every latency is counted in group 0 (`Measurement.GroupSize`).
- A literal among a jaxpr's own outputs is reported under an id that nothing produces
  (`Jaxpr.OutputsResolve`).
- The two constant passes of the TorchScript decoder run in an order in which the second
  makes new tensor-list constants: one is used directly afterwards exactly when a used
  constant of optional type held a list of tensors (`TorchScriptPasses.TorchGraph.Transform`).
- An i4 or u4 value out of range passes the rounding check of `pack_data` and comes back as
  its low bits (`Packing.RoundTrip`).
- Tensors of type i4 and u4 are loaded from raw files byte by byte. A CN tensor is therefore
  the transpose of its files, whatever they hold, exactly when there is one file
  (`InputsFilling.FourBitCnExactly`; `InputsFilling.FourBitMixed` is an instance). In other
  layouts the files are in place exactly when they have an even number of elements, at most
  one, or there is one file (`InputsFilling.FourBitWholeExactly`). Of an odd number the last is
  never read (`InputsFilling.FourBitSize`, `InputsFilling.LoadFourBit`).
- What was folded for a virtual device parses back exactly when every entry names a known
  device and has a non-empty value without `:` and `,` (`DeviceValues.FoldedRoundTrip`); an
  empty value turns its key into a value (`DeviceValues.EmptyValueIsLost`).
- Rendered input parameters parse to what they mean exactly when no name has a bracket and
  no value a closing one (`InputParameters.RenderedExactly`). Text that is not well formed
  is accepted exactly when a known name can be cut in two: it has a closing bracket and
  either ends there or goes on with a comma and nothing more or again such a name
  (`InputParameters.MisreadExactly`, `InputParameters.UsableExactly`;
  `InputParameters.ClosingNameMisread` is an instance).

## Model

| member | source | states |
|---|---|---|
| `PagePool.FirstFit` | src/mem/mem_pool.cc:84-95 | the leftmost run of n free pages from a page on: free, none further left, and None only when no such run exists |
| `PagePool.FreeTail` | src/mem/mem_pool.cc:86-103 | where the longest all-free tail of the pool starts |
| `PagePool.PagesFor` | src/mem/mem_pool.cc:82 | the least number of 4096-byte pages that hold the bytes asked for |
| `PagePool.AllocIsFirstFit` | src/mem/mem_pool.cc:82-103 | an allocation succeeds iff it asks for something and a long enough free run exists; it then sets exactly the leftmost such run, otherwise exactly the maximal free tail |
| `PagePool.AllocTakesBytes` | src/mem/mem_pool.cc:82-103 | an allocation fails iff nothing is asked for or every stretch of pages that could hold the bytes has a taken one; otherwise the pages that hold its bytes were free and exactly these are taken |
| `PagePool.FreeUndoesExactly` | src/mem/mem_pool.cc:112-114 | freeing an allocation clears its first page only, so the flags are as before iff it is one page long |
| `PagePool.ScanFits` | src/mem/mem_pool.cc:86-95 | when the scan completes a run, that run is the leftmost fitting one |
| `PagePool.ScanFails` | src/mem/mem_pool.cc:102-103 | when the scan falls off the end, what it holds is exactly the free tail and nothing fits |
| `PagePool.ScanUndo` | src/mem/mem_pool.cc:96-101 | clearing the cut-off run restores the flags as they were before the scan touched them |
| `PagePool.MemPool.constructor` | src/mem/mem_pool.cc:33-52 | a pool starts with every page free and nothing used |
| `PagePool.MemPool.Alloc` | src/mem/mem_pool.cc:82-103 | the claiming loop with rollback refines the first-fit specification: flags, counters and pointer |
| `PagePool.MemPool.GiveBack` | src/mem/mem_pool.cc:97-99 | the rollback clears exactly the pages of the run |
| `PagePool.MemPool.Free` | src/mem/mem_pool.cc:112-114 | one flag cleared, `used` one less modulo 2^64, all else unchanged |
| `PagePool.CpuAlloc` | src/mem/mem_pool.cc:75-104 | without pools nothing is handed out; otherwise the pool of the caller's node, or pool 0, serves the request: the bytes handed out lie in pages that were free and are now taken, no other flag of any pool changes, and None means that no stretch of free pages could hold the bytes |
| `PagePool.CpuFree` | src/mem/mem_pool.cc:106-118 | exactly the page that holds the address, in the pool whose buffer holds it, becomes free; null and foreign addresses change nothing |
| `PagePool.PointerRoundTrip` | src/mem/mem_pool.cc:94-112 | an address handed out for a page leads back to that page of that pool only |
| `PagePool.AllocateBalanced` | src/mem/mem_pool.cc:86-103 | allocation keeps the books |
| `PagePool.StepBalanced` | src/mem/mem_pool.cc:86-116 | every operation keeps: set pages = `used` + stranded pages, `used` <= `peak_used` <= size; a release finds `used` positive |
| `PagePool.RunBalanced` | src/mem/mem_pool.cc:86-116 | the same over every run of allocations and releases, `peak_used` being the highest `used` so far; the decrement never wraps |
| `PagePoolThreads.Transfer` | src/mem/mem_pool.cc:86-103 | a step that moves, adds and drops pages of one owner keeps the ownership partition |
| `PagePoolThreads.SuccessKeepsPartition` | src/mem/mem_pool.cc:91-95 | a successful claim becomes an allocation without touching any other owner |
| `PagePoolThreads.GivingUpKeepsPartition` | src/mem/mem_pool.cc:102-103 | the run held by a failed scan becomes stranded |
| `PagePoolThreads.FreeReturnsPage` | src/mem/mem_pool.cc:106-118 | a release clears the first page of the allocation, which nobody owns afterwards, and no other flag; its other pages become stranded, every other owner keeps exactly its pages, and the flags are those of the sequential release |
| `PagePoolThreads.StepKeepsInv` | src/mem/mem_pool.cc:84-118 | each atomic step of any thread keeps: the set pages are the disjoint union of live allocations, claims in flight and stranded pages |
| `PagePoolThreads.RunKeepsInv` | src/mem/mem_pool.cc:84-118 | the partition holds in every state of every interleaving of any number of threads |
| `PagePoolThreads.StrandedForever` | src/mem/mem_pool.cc:102-114 | a stranded page stays set in every later state |
| `PagePoolThreads.RollbackClearsOwnPage` | src/mem/mem_pool.cc:97-99 | a rollback step clears one page, which its own thread and nobody else owns |
| `PagePoolThreads.SuccessIsExclusive` | src/mem/mem_pool.cc:91-95 | the pages of a new allocation had no other owner and have no other afterwards |
| `PagePoolThreads.NullMeansTaken` | src/mem/mem_pool.cc:84-104 | when a call gives up in the middle of any interleaving then, for every run of as many pages as it needs, its own test-and-set found a page of that run taken during the call |
| `PagePoolThreads.SoloScan` | src/mem/mem_pool.cc:84-104 | from any point of its scan, an undisturbed thread ends with the sequential result |
| `PagePoolThreads.AloneIsSequential` | src/mem/mem_pool.cc:75-104 | an undisturbed call is exactly the sequential first-fit allocation, from any state of the other threads |
| `PagePoolThreads.AllocThenFree` | src/mem/mem_pool.cc:75-118 | a successful call that is undisturbed and then a release leave all but the first page of the allocation taken and nothing else changed |
| `GpuTable.StepKeepsHandles` | src/mem/mem_pool.cc:140-189 | every step keeps each open DRM handle with exactly one of: an alloc in flight, a table entry, a free in flight |
| `GpuTable.StepKeepsMappings` | src/mem/mem_pool.cc:153-185 | every step keeps each mapping with at most one responsible party, who knows its length |
| `GpuTable.StepKeepsInv` | src/mem/mem_pool.cc:129-190 | both together, for an arbitrary step of an arbitrary thread |
| `GpuTable.RunKeepsInv` | src/mem/mem_pool.cc:129-190 | both in every state of every run |
| `GpuTable.InsertFindsNoEntry` | src/mem/mem_pool.cc:163-185 | an insert never overwrites a live entry, since entries leave the table before they are unmapped |
| `GpuTable.DestroyedOnce` | src/mem/mem_pool.cc:147-188 | a handle is destroyed while open and by its only holder, and nobody refers to it afterwards |
| `GpuTable.UnmapMatchesMapping` | src/mem/mem_pool.cc:184-185 | munmap is given a live mapping and its own length |
| `GpuTable.SecondFreeFindsNothing` | src/mem/mem_pool.cc:172-189 | of two threads freeing one address the first takes the buffer and the second does nothing |
| `GpuTable.NothingLeaksAtRest` | src/mem/mem_pool.cc:129-190 | when no call is under way the open handles are exactly those of the table |
| `GpuTable.StepKeepsCovered` | src/mem/mem_pool.cc:153-185 | every step keeps each mapping the calls have made with somebody who answers for it |
| `GpuTable.RunKeepsCovered` | src/mem/mem_pool.cc:129-190 | the same in every state of every run |
| `GpuTable.NoMappingLeaksAtRest` | src/mem/mem_pool.cc:129-190 | when no call is under way the process has its former mappings and exactly those of the table |
| `GpuTable.EntryStays` | src/mem/mem_pool.cc:129-190 | in every run an alloc that ends leaves a table entry with its size and handle, open and mapped, and it stays until a free looks the address up |
| `GpuTable.AllocAdds` | src/mem/mem_pool.cc:132-167 | an undisturbed alloc adds one open handle, one mapping and one table entry |
| `GpuTable.FreeUndoes` | src/mem/mem_pool.cc:169-190 | an undisturbed free of that buffer restores the state before the alloc |
| `GpuTable.FailedAllocUndoes` | src/mem/mem_pool.cc:144-158 | an alloc that fails in either place leaves the state as it was |
| `TaskRing.FullExactly` | src/mem/mem_ring.cc:26-32 | the two tests hold iff size - 1 slots, or none, are in use |
| `TaskRing.Ring.constructor` | src/mem/mem_ring.cc:5-24 | a new ring is empty and as large as the requested size modulo 2^32, and usable iff that is not 0 |
| `TaskRing.Ring.Following` | src/mem/mem_ring.cc:41-53 | (index + 1) % size does not overflow 32 bits and is the next slot around |
| `TaskRing.Ring.PushTask` | src/mem/mem_ring.cc:34-43 | refines a bounded queue of capacity size - 1: refused iff full, otherwise appended; what was handed out stays a prefix of what was accepted |
| `TaskRing.Ring.PopTask` | src/mem/mem_ring.cc:45-55 | refused iff empty, otherwise the oldest pair, with its data if asked for, and that pair is removed |
| `TaskRing.WindowGrows` | src/mem/mem_ring.cc:39-41 | writing the free slot and advancing head appends one pair to the stored ones |
| `TaskRing.WindowShrinks` | src/mem/mem_ring.cc:49-53 | advancing tail removes the oldest stored pair |
| `TaskRing.Next` | src/mem/mem_ring.cc:34-55 | one statement of push or pop, or part of a write; indices stay inside the arrays |
| `TaskRing.PublishKeepsInv` | src/mem/mem_ring.cc:41-42 | advancing head publishes the pair just written |
| `TaskRing.AdvanceKeepsInv` | src/mem/mem_ring.cc:53-54 | advancing tail hands out the pair that was the oldest when the pop began |
| `TaskRing.StepKeepsInv` | src/mem/mem_ring.cc:34-55 | every statement of either thread, half-done writes included, keeps the stored pairs in order and the popped ones a prefix |
| `TaskRing.FirstInFirstOut` | src/mem/mem_ring.cc:5-55 | over every interleaving: the popped pairs are a prefix of the accepted ones, the rest is stored in order, at most size - 1 at a time |
| `TaskRing.PopsAnswer` | src/mem/mem_ring.cc:34-55 | over every interleaving: the i-th successful pop hands out the task of the i-th accepted push, and its data iff that pop asked for data |
| `TaskRing.PushAlone` | src/mem/mem_ring.cc:34-43 | a push that finds room, its writes torn or not, has its pair accepted three steps later |
| `TaskRing.PopAlone` | src/mem/mem_ring.cc:45-55 | a pop that finds a pair hands out the oldest one three steps later, with its data iff asked for |
| `TaskRing.NoSlotShared` | src/mem/mem_ring.cc:39-52 | the slot being written is never the slot being read |
| `TaskRing.RefusedExactly` | src/mem/mem_ring.cc:36-48 | push gives up iff size - 1 pairs are stored, pop iff none is |
| `InferQueue.InferRequestsQueue.constructor` | openvino/samples/cpp/benchmark_app/infer_request_wrap.hpp:109-124 | all requests idle, in order, and nothing recorded |
| `InferQueue.InferRequestsQueue.ResetTimes` | openvino/samples/cpp/benchmark_app/infer_request_wrap.hpp:136-143 | clears the latencies and every group and nothing else |
| `InferQueue.InferRequestsQueue.PutIdleRequest` | openvino/samples/cpp/benchmark_app/infer_request_wrap.hpp:149-165 | an exception is remembered and nothing else happens; otherwise the latency is recorded, in its group too, and the id queued |
| `InferQueue.InferRequestsQueue.TryGetIdleRequest` | openvino/samples/cpp/benchmark_app/infer_request_wrap.hpp:167-179 | throws iff an inference failed, blocks iff none is idle, otherwise removes the first idle id |
| `InferQueue.InferRequestsQueue.TryWaitAll` | openvino/samples/cpp/benchmark_app/infer_request_wrap.hpp:181-189 | throws iff an inference failed, returns iff as many ids are idle as there are requests |
| `InferQueue.StepKeepsInv` | openvino/samples/cpp/benchmark_app/infer_request_wrap.hpp:107-189 | each critical section keeps: every request is in exactly one of idle, held, running and failed, the idle queue has no duplicate, and an un-notified sleeper has nothing to wake up for |
| `InferQueue.RunKeepsInv` | openvino/samples/cpp/benchmark_app/infer_request_wrap.hpp:107-189 | the same in every state of every run, spurious wake-ups included |
| `InferQueue.GetReturnsIdle` | openvino/samples/cpp/benchmark_app/infer_request_wrap.hpp:167-179 | the request handed out was not running, held or failed, and leaves the idle queue |
| `InferQueue.IdleInOrder` | openvino/samples/cpp/benchmark_app/infer_request_wrap.hpp:109-179 | over every run: requests are handed out in the order in which they became idle, beginning with 0, 1, and so on |
| `InferQueue.NotifiedByCompletion` | openvino/samples/cpp/benchmark_app/infer_request_wrap.hpp:149-189 | over every run: a sleeping main thread has been notified iff a request has completed since it last evaluated its predicate |
| `InferQueue.WaitAllReturnsAtRest` | openvino/samples/cpp/benchmark_app/infer_request_wrap.hpp:181-189 | wait_all returns normally iff nothing is running, held or failed |
| `InferQueue.SleeperIsServed` | openvino/samples/cpp/benchmark_app/infer_request_wrap.hpp:149-189 | a sleeping main thread has been notified or a completion that will notify it is still to come |
| `InferQueue.FailureIsFinal` | openvino/samples/cpp/benchmark_app/infer_request_wrap.hpp:154-188 | once an inference has failed, in every later state of the run every wait throws |
| `Measurement.RoundUpLeast` | openvino/samples/cpp/benchmark_app/main.cpp:875-891 | the alignment formula gives the least multiple that is not below the limit |
| `Measurement.NotYetLast` | openvino/samples/cpp/benchmark_app/main.cpp:1113-1115 | while the loop condition holds the last iteration is not reached; hence the loop ends |
| `Measurement.Stopped` | openvino/samples/cpp/benchmark_app/main.cpp:1113-1115 | when it fails: a multiple of nireq in async mode, at least the aligned limit, and exactly the least such number without a time limit |
| `Measurement.StoppedRight` | openvino/samples/cpp/benchmark_app/main.cpp:874-1115 | when the loop ends the number n of iterations is the first at which the limits are reached: n >= niter; n == niter in synchronous mode without a time limit; in asynchronous mode without one the least multiple of nireq not below the least multiple of max(groups, nireq) not below niter; with a time limit the time is over |
| `Measurement.SelectExactly` | openvino/samples/cpp/benchmark_app/infer_request_wrap.hpp:157-160 | the latencies of a group are those of its iterations, each once |
| `Measurement.GroupCount` | openvino/samples/cpp/benchmark_app/main.cpp:1121-1126 | group g of G holds n / G iterations, plus one if g < n % G; in inference-only mode group 0 holds all |
| `Measurement.PutKeepsGroups` | openvino/samples/cpp/benchmark_app/infer_request_wrap.hpp:42-45 | a callback that reports its request's group id keeps every group exact |
| `Measurement.Finished` | openvino/samples/cpp/benchmark_app/main.cpp:1158-1165 | with nothing running every started iteration is recorded exactly once, and in its group |
| `Measurement.Benchmark.CompleteOne` | openvino/samples/cpp/benchmark_app/infer_request_wrap.hpp:36-46 | a completion, good or bad, keeps pool, groups and bookkeeping consistent |
| `Measurement.Benchmark.GetIdleRequest` | openvino/samples/cpp/benchmark_app/infer_request_wrap.hpp:167-179 | the wait ends, with a request nobody else has, or rethrows because an inference has failed |
| `Measurement.Benchmark.WaitAll` | openvino/samples/cpp/benchmark_app/infer_request_wrap.hpp:181-189 | the wait ends, with nothing running, or rethrows because an inference has failed |
| `Measurement.Benchmark.Launch` | openvino/samples/cpp/benchmark_app/infer_request_wrap.hpp:48-62 | starting an iteration, in either mode, books it once; only infer() may throw by itself |
| `Measurement.Benchmark.WarmUp` | openvino/samples/cpp/benchmark_app/main.cpp:1064-1104 | the first latency exists, and the warm-up leaves nothing recorded |
| `Measurement.Benchmark.Iterate` | openvino/samples/cpp/benchmark_app/main.cpp:1116-1152 | one turn of the loop starts exactly the next iteration, in its latency group, while other requests finish or fail at any point of it |
| `Measurement.Benchmark.Measure` | openvino/samples/cpp/benchmark_app/main.cpp:874-1165 | end to end without exception: the number of iterations is the right one in terms of the settings and the clock, as many latencies are recorded, the warm-up excluded, and with -pcseq each group holds exactly its iterations |
| `Measurement.RunBenchmark` | openvino/samples/cpp/benchmark_app/main.cpp:935-1165 | the same from building the request pool on |
| `Gptq.HalfIsNibble` | openvino/python/openvino/frontend/pytorch/gptq.py:27-29 | the halves of the little-endian bytes of an int32 are its nibbles, in order |
| `Gptq.NibbleShift` | openvino/python/openvino/frontend/pytorch/gptq.py:26-29 | nibble k of a word is the word shifted right by 4 * k, modulo 16 |
| `Gptq.Plus17` | openvino/python/openvino/frontend/pytorch/gptq.py:149-151 | adding 17 to a byte adds 1 to the low half iff it is not 15, and to the high half iff neither half is 15 |
| `Gptq.Source` | openvino/python/openvino/frontend/pytorch/gptq.py:45-46 | where an element of the transposed tensor comes from, always inside the tensor |
| `Gptq.WeightAt` | openvino/python/openvino/frontend/pytorch/gptq.py:43-46 | the view/stack/transpose/view chain puts nibble r % 8 of qweight[r / 8][c] at row r, column c, for every shape |
| `Gptq.GroupIndexAt` | openvino/python/openvino/frontend/pytorch/gptq.py:50-51 | broadcasting over groups pairs row r with group r / group_size |
| `Gptq.ZeroAt` | openvino/python/openvino/frontend/pytorch/gptq.py:47-48 | the unpacked zero point is the stored one plus one iff no 15 in the same byte overflows into it |
| `Gptq.ZeroValue` | openvino/python/openvino/frontend/pytorch/gptq.py:47-48 | the unpacked zero point is, in four bits, the stored one plus one plus a carry, which there is iff an odd column's left neighbour is 15 |
| `Gptq.CarryFree` | openvino/python/openvino/frontend/pytorch/gptq.py:47-48 | that is the stored one plus one iff neither of the two is 15 |
| `Gptq.WeightValue` | openvino/python/openvino/frontend/pytorch/gptq.py:43-51 | each entry of the weights is (stored weight - zero point) * scale |
| `Gptq.WeightSymValue` | openvino/python/openvino/frontend/pytorch/gptq.py:76-84 | on the symmetric path each entry is (stored weight - 8) * scale |
| `Gptq.DequantisedIsReference` | openvino/python/openvino/frontend/pytorch/gptq.py:32-51 | an entry is AutoGPTQ's (weight - (zero + 1)) * scale iff the scale is 0 or no zero point up to it in its byte is 15 |
| `Gptq.DequantisedSymIsReference` | openvino/python/openvino/frontend/pytorch/gptq.py:64-82 | the symmetric path gives the same iff the zero point is 7 or the scale is 0 |
| `GptqPatching.ViewBack` | openvino/python/openvino/frontend/pytorch/gptq.py:143-168 | viewing a tensor as bytes and back restores its type, shape and memory |
| `GptqPatching.ViewExactly` | openvino/python/openvino/frontend/pytorch/gptq.py:143-168 | a view fails iff there is no dimension or the last one has no whole number of the new elements, and keeps the memory |
| `GptqPatching.HeldRestored` | openvino/python/openvino/frontend/pytorch/gptq.py:109-176 | a module with the tensors of a layer is patched without error and unpatching restores it |
| `GptqPatching.ViewBytes` | openvino/python/openvino/frontend/pytorch/gptq.py:143-144 | viewing a tensor as bytes keeps its memory and multiplies its last dimension by the width of its type |
| `GptqPatching.BlockedExactly` | openvino/python/openvino/frontend/pytorch/gptq.py:118-153 | a module raises iff it is quantised and its type, bits, shapes, group size or number of scales do not fit, and raises for the scales iff only they do not |
| `GptqPatching.ErrorExactly` | openvino/python/openvino/frontend/pytorch/gptq.py:88-153 | which error is raised, by the four supported types, 4 bits, the shapes, the group size and the number of scales |
| `GptqPatching.MarkersSet` | openvino/python/openvino/frontend/pytorch/gptq.py:109-153 | patching leaves a module as its residue or keeps all else it changes in its markers |
| `GptqPatching.ForwardReadsKept` | openvino/python/openvino/frontend/pytorch/gptq.py:132-151 | the tensors a patched module keeps are those the dequantisation in `Gptq` reads, 17 added to the zero points, and the forward is the one of the requested path |
| `GptqPatching.PatchedForward` | openvino/python/openvino/frontend/pytorch/gptq.py:33-153 | patching a module that holds a layer succeeds, and what either forward computes from the attributes it reads (kept tensors, heights, groups, group size, width, reshaped scales) is the layer's dequantised weights |
| `GptqPatching.PatchedIsReference` | openvino/python/openvino/frontend/pytorch/gptq.py:33-153 | whatever a patched module multiplies with, an entry is AutoGPTQ's value iff the scale is 0 or no 15 overflows in the byte of its zero point; on the symmetric path iff the scale is 0 or the zero point is 7 |
| `GptqPatching.PatchedValues` | openvino/python/openvino/frontend/pytorch/gptq.py:33-153 | whatever a patched module multiplies with, each entry is (stored weight - zero point) * scale, or (stored weight - 8) * scale on the symmetric path; the zero point is the stored one plus one iff no 15 overflows |
| `GptqPatching.UnpatchRestores` | openvino/python/openvino/frontend/pytorch/gptq.py:109-176 | unpatching one module restores all of it, wherever patching stopped, but that is_quantized is false, the width is recorded and the scales have single precision |
| `GptqPatching.UnpatchAllRestores` | openvino/python/openvino/frontend/pytorch/gptq.py:99-179 | the same for every module that patching got to; those behind the first one that cannot be patched are untouched |
| `GptqPatching.PatchOneTwice` | openvino/python/openvino/frontend/pytorch/gptq.py:110-153 | patching a module again changes nothing; it raises the same error again unless the first attempt had set the marker |
| `GptqPatching.PatchAllTwice` | openvino/python/openvino/frontend/pytorch/gptq.py:109-153 | what a second run gives: the same, unless the first module that cannot be patched fails for its scales only, which the second run takes for patched and passes |
| `GptqPatching.SecondRunDiffers` | openvino/python/openvino/frontend/pytorch/gptq.py:109-153 | the two runs differ iff the first module that cannot be patched fails for its scales only |
| `GptqPatching.IndivisibleExists` | openvino/python/openvino/frontend/pytorch/gptq.py:118-153 | a module for which they differ |
| `GptqPatching.GptqModule.Patch` | openvino/python/openvino/frontend/pytorch/gptq.py:110-153 | the loop body, attribute by attribute, refines the specification, errors included |
| `GptqPatching.GptqModule.Unpatch` | openvino/python/openvino/frontend/pytorch/gptq.py:158-176 | the same for unpatching, where an exception skips the rest |
| `GptqPatching.PatchModel` | openvino/python/openvino/frontend/pytorch/gptq.py:109-153 | the loop over modules patches all up to the first it cannot handle |
| `GptqPatching.UnpatchModel` | openvino/python/openvino/frontend/pytorch/gptq.py:156-179 | the loop over modules unpatches each of them |
| `Packing.FromValueBits` | openvino/python/openvino/helpers/packing.py:44-46 | the extracted bits of a value are the value modulo 2^bits, negative values included |
| `Packing.UnpackPacked` | openvino/python/openvino/helpers/packing.py:46-48 | unpacking packed bits gives the bits back |
| `Packing.PackUnpacked` | openvino/python/openvino/helpers/packing.py:48-66 | packing unpacked bits gives the bytes back |
| `Packing.DecodeValue` | openvino/python/openvino/helpers/packing.py:74-85 | a value's bits decode to its low bits, sign-extended for i4 |
| `Packing.UnpackData` | openvino/python/openvino/helpers/packing.py:65-87 | the padding loop and the u1 shortcut compute the values, cut or repeated to the shape |
| `Packing.ValuesOfPacked` | openvino/python/openvino/helpers/packing.py:44-87 | every packed value, pads included, comes back truncated |
| `Packing.RefusedExactly` | openvino/python/openvino/helpers/packing.py:28-31 | packing fails iff some value is outside of -128 to 127 for i4, or of 0 to 255 for the other types |
| `Packing.RoundTrip` | openvino/python/openvino/helpers/packing.py:33-87 | for every length: packing succeeds for representable values, takes ceil(n * bits / 8) bytes, unpacking gives the low bits, and the input itself iff all values fit |
| `Packing.FitsExactly` | openvino/python/openvino/helpers/packing.py:29-34 | a value survives iff it is in the type's range |
| `Packing.RoundTripBytes` | openvino/python/openvino/helpers/packing.py:33-87 | packing a full unpack returns the original bytes |
| `Packing.ShortcutAgrees` | openvino/python/openvino/helpers/packing.py:68-87 | the general path gives for u1 what the shortcut gives |
| `Packing.NibbleLayout` | openvino/python/openvino/helpers/packing.py:17-19 | byte k holds value 2k in its high half and value 2k + 1, or a zero pad, in its low half |
| `Jaxpr.InputsRead` | openvino/python/openvino/frontend/jax/jaxpr_decoder.py:78-90 | through its reported input ids an equation reads what the jaxpr feeds it; the k-th literal reaches its own constant |
| `Jaxpr.RunEqn` | openvino/python/openvino/frontend/jax/jaxpr_decoder.py:152-161 | visiting one equation's decoders binds its outputs to the jaxpr's values and disturbs no variable |
| `Jaxpr.RunEqns` | openvino/python/openvino/frontend/jax/jaxpr_decoder.py:152-161 | the same for all equations in order |
| `Jaxpr.DecodingPreservesMeaning` | openvino/python/openvino/frontend/jax/jaxpr_decoder.py:137-170 | evaluating the visited decoders in order never reads an unbound id and gives every output variable the jaxpr's value |
| `Jaxpr.OutputsResolve` | openvino/python/openvino/frontend/jax/jaxpr_decoder.py:169-173 | a root output's id is bound iff the output is a variable |
| `Jaxpr.RootDecoder.VisitSubgraph` | openvino/python/openvino/frontend/jax/jaxpr_decoder.py:137-161 | the order in which decoders are visited, and which of them the root keeps |
| `Jaxpr.RootDecoder.VisitConstvars` | openvino/python/openvino/frontend/jax/jaxpr_decoder.py:143-150 | one constant per constvar, under the variable's own id |
| `Jaxpr.RootDecoder.VisitEquations` | openvino/python/openvino/frontend/jax/jaxpr_decoder.py:151-161 | each equation after the constants of its literals |
| `Jaxpr.KeptExactly` | openvino/python/openvino/frontend/jax/jaxpr_decoder.py:151-161 | of the decoders visited the root keeps one for each equation, in order, and none of a literal |
| `Jaxpr.VisitLiterals` | openvino/python/openvino/frontend/jax/jaxpr_decoder.py:153-158 | one constant per literal input, in order |
| `Jaxpr.EquationInputs` | openvino/python/openvino/frontend/jax/jaxpr_decoder.py:78-88 | the running index pairs the literals with the literal decoders in order |
| `TorchScriptPasses.ReplacePreserves` | openvino/python/openvino/frontend/pytorch/ts_decoder.py:552-563 | putting nodes that stand for a constant before it and replacing its uses keeps definitions before uses and the value of every graph output |
| `TorchScriptPasses.UsesMove` | openvino/python/openvino/frontend/pytorch/ts_decoder.py:563-581 | replacing all uses moves the constant's uses to the replacement and no others |
| `TorchScriptPasses.PrefixStays` | openvino/python/openvino/frontend/pytorch/ts_decoder.py:541-563 | nodes already passed stay free of used constants of the kind |
| `TorchScriptPasses.KindStays` | openvino/python/openvino/frontend/pytorch/ts_decoder.py:571-581 | a replacement of the same kind is used iff the replaced constant was |
| `TorchScriptPasses.ListStep` | openvino/python/openvino/frontend/pytorch/ts_decoder.py:552-563 | expanding one tensor-list constant keeps meaning, order, typing and the operations |
| `TorchScriptPasses.CopyStep` | openvino/python/openvino/frontend/pytorch/ts_decoder.py:577-581 | retyping one optional constant keeps the same |
| `TorchScriptPasses.ReplaceKeepsOthers` | openvino/python/openvino/frontend/pytorch/ts_decoder.py:552-581 | one replacement leaves the other constants and their uses alone and adds constants only under new ids and the type of their value |
| `TorchScriptPasses.LeftInPlainTerms` | openvino/python/openvino/frontend/pytorch/ts_decoder.py:543-571 | what the passes look for, by the types and the values of the constants |
| `TorchScriptPasses.NamesExactly` | openvino/python/openvino/frontend/pytorch/ts_decoder.py:541-581 | the operations that the passes keep in order: every operation of the graph and nothing else |
| `TorchScriptPasses.TorchGraph.InsertConstantBefore` | openvino/python/openvino/frontend/pytorch/ts_decoder.py:554-555 | appending a constant and moving it ends with it in front of the node under a new id |
| `TorchScriptPasses.TorchGraph.ExpandList` | openvino/python/openvino/frontend/pytorch/ts_decoder.py:552-563 | the inner loop inserts one constant per element and one ListConstruct and replaces the uses |
| `TorchScriptPasses.TorchGraph.CopyOptional` | openvino/python/openvino/frontend/pytorch/ts_decoder.py:577-581 | the body of the second pass |
| `TorchScriptPasses.TorchGraph.TransformTensorListConstants` | openvino/python/openvino/frontend/pytorch/ts_decoder.py:536-563 | for every graph: meaning, order and operations are kept; no constant of type List[Tensor] or List[Optional[Tensor]] is used directly afterwards; constants of other types stay and are used exactly as before, and new ones have the type of their value |
| `TorchScriptPasses.TorchGraph.TransformOptionalConstants` | openvino/python/openvino/frontend/pytorch/ts_decoder.py:566-581 | for every graph: the same for constants of optional type; one of a tensor-list type is used afterwards iff one was before or an optional one held a non-empty list of tensors and Nones |
| `TorchScriptPasses.TorchGraph.Transform` | openvino/python/openvino/frontend/pytorch/ts_decoder.py:94-97 | both passes in the code's order: no optional-typed constant is used afterwards; a tensor-list one is iff a used optional-typed constant held a non-empty list of tensors and Nones; all other constants are used as before |
| `TorchScriptPasses.OptionalListExists` | openvino/python/openvino/frontend/pytorch/ts_decoder.py:95-97 | a graph for which the two passes leave a tensor-list constant in use |
| `InputsFilling.CellOfPixel` | openvino/samples/cpp/benchmark_app/inputs_filling.cpp:78-85 | every pixel has a cell inside the tensor, and no two pixels share one |
| `InputsFilling.PixelOfCell` | openvino/samples/cpp/benchmark_app/inputs_filling.cpp:78-85 | every cell belongs to a pixel |
| `InputsFilling.SourceInside` | openvino/samples/cpp/benchmark_app/inputs_filling.cpp:84 | the byte read for a pixel lies in the image |
| `InputsFilling.ReorderedPixel` | openvino/samples/cpp/benchmark_app/inputs_filling.cpp:80-84 | the cell of a pixel, which lies in the tensor, holds the pixel's byte, which lies in its image |
| `InputsFilling.ReorderedElement` | openvino/samples/cpp/benchmark_app/inputs_filling.cpp:78-84 | in row-major terms element (b, ch, h, w) of an NCHW tensor, or (b, h, w, ch) otherwise, is element (h, w, ch) of image b |
| `InputsFilling.LayoutElement` | openvino/samples/cpp/benchmark_app/inputs_filling.cpp:78-84 | tensors of layout NCHW, NHWC, CHW and HWC are filled so that each pixel is at the row-major index that the letters give |
| `InputsFilling.Unreordered` | openvino/samples/cpp/benchmark_app/inputs_filling.cpp:80-84 | for the other layouts the images simply follow one another |
| `InputsFilling.WriteCell` | openvino/samples/cpp/benchmark_app/inputs_filling.cpp:84 | each write hits a cell that no earlier turn of the loops has touched |
| `InputsFilling.FillFromImages` | openvino/samples/cpp/benchmark_app/inputs_filling.cpp:70-91 | the four nested loops produce exactly the reordering, or throw iff an image is missing and there are pixels |
| `InputsFilling.AllReadable` | openvino/samples/cpp/benchmark_app/inputs_filling.cpp:48-64 | image b is file (inputId + b) modulo the number of files when all can be read |
| `InputsFilling.SomeUnreadable` | openvino/samples/cpp/benchmark_app/inputs_filling.cpp:54-64 | one unreadable file leaves too few images |
| `InputsFilling.CreateFromImages` | openvino/samples/cpp/benchmark_app/inputs_filling.cpp:40-91 | collecting and filling together, with the exact failure condition |
| `InputsFilling.RefusedExactly` | openvino/samples/cpp/benchmark_app/inputs_filling.cpp:210-229 | a file is used iff it can be opened, ends in .bin and has the expected size, and which error is raised otherwise |
| `InputsFilling.CnTransposes` | openvino/samples/cpp/benchmark_app/inputs_filling.cpp:233-237 | for elements of whole bytes: byte k of element (i, b) of a CN tensor is byte k of element i of file b |
| `InputsFilling.OthersFollow` | openvino/samples/cpp/benchmark_app/inputs_filling.cpp:231-232 | for other layouts the files follow one another |
| `InputsFilling.ReadColumn` | openvino/samples/cpp/benchmark_app/inputs_filling.cpp:234-236 | reading one file element by element, as far as it goes, fills its column and nothing else |
| `InputsFilling.FillFromFiles` | openvino/samples/cpp/benchmark_app/inputs_filling.cpp:206-243 | for every T and element width of the callers: the T's of the files transposed as far as they go, or the files in a row, and the tensor untouched elsewhere; the error of the first unusable file otherwise |
| `InputsFilling.SizeDivides` | openvino/samples/cpp/benchmark_app/inputs_filling.cpp:499-576 | for each T that the loader is called with, a file of the expected size holds whole T's, one per element when T is as wide as an element |
| `InputsFilling.FourBitSize` | openvino/samples/cpp/benchmark_app/inputs_filling.cpp:213-214 | a file of m 4-bit elements is expected to have m / 2 bytes, so that the last of an odd number is missing |
| `InputsFilling.LoadFourBit` | openvino/samples/cpp/benchmark_app/inputs_filling.cpp:206-243 | called for i4 and u4 with a one-byte T, the loader puts the bytes of the files, transposed or in a row, in front of what was in the tensor |
| `InputsFilling.CnNibble` | openvino/samples/cpp/benchmark_app/inputs_filling.cpp:233-237 | the file and the element of it from which each element of a 4-bit CN tensor comes |
| `InputsFilling.TwoFilesMixed` | openvino/samples/cpp/benchmark_app/inputs_filling.cpp:233-237 | files of which the first has another second element than the second has a first one are not transposed |
| `InputsFilling.FourBitCnExactly` | openvino/samples/cpp/benchmark_app/inputs_filling.cpp:233-237 | all choices of file contents of the expected size are transposed iff there is one file per tensor or nothing to read |
| `InputsFilling.FourBitMixed` | openvino/samples/cpp/benchmark_app/inputs_filling.cpp:233-237 | two files of two elements that are not |
| `InputsFilling.WholeNibble` | openvino/samples/cpp/benchmark_app/inputs_filling.cpp:231-232 | in other layouts element j of file b is at row b, column j in rows of the elements the files hold |
| `InputsFilling.FourBitWholeExactly` | openvino/samples/cpp/benchmark_app/inputs_filling.cpp:231-232 | which is where it belongs, for all file contents, iff the number of elements is even or at most one or there is one file |
| `InputsFilling.Halves` | openvino/samples/cpp/benchmark_app/inputs_filling.cpp:275-280 | each masked write sets one half of the byte and keeps the other |
| `InputsFilling.FillRandom4bit` | openvino/samples/cpp/benchmark_app/inputs_filling.cpp:273-281 | nibble i becomes draw i & 15; every other nibble, the unused last one included, is unchanged |
| `DeviceValues.PutKeepsSorted` | openvino/samples/cpp/benchmark_app/utils.cpp:265-277 | inserting into the ordered map keeps it ordered |
| `DeviceValues.SplitString` | openvino/samples/cpp/benchmark_app/utils.cpp:89-98 | the getline loop refines the recursive split |
| `DeviceValues.SplitJoined` | openvino/samples/cpp/benchmark_app/utils.cpp:89-98 | splitting undoes joining, except that an empty last item is lost |
| `DeviceValues.ParseValuePerDevice` | openvino/samples/cpp/benchmark_app/utils.cpp:253-284 | the two nested loops refine the parse, with both exceptions |
| `DeviceValues.UnknownDeviceFails` | openvino/samples/cpp/benchmark_app/utils.cpp:260-273 | the first pair with an unknown device is reported, whatever precedes or follows it |
| `DeviceValues.ManyColonsFail` | openvino/samples/cpp/benchmark_app/utils.cpp:279-280 | an item with more than one colon is an error |
| `DeviceValues.BareValue` | openvino/samples/cpp/benchmark_app/utils.cpp:274-278 | a value without a device goes to every device and nowhere else |
| `DeviceValues.ValuesPerDevice.ParseForVirtualDevice` | openvino/samples/cpp/benchmark_app/utils.cpp:184-219 | the erasing loop refines the fold in all of its cases |
| `DeviceValues.ValuesPerDevice.FoldOthers` | openvino/samples/cpp/benchmark_app/utils.cpp:200-218 | erasing while iterating folds exactly the other entries, in order, into one string |
| `DeviceValues.OneKeyLeft` | openvino/samples/cpp/benchmark_app/utils.cpp:184-219 | at most one key is left, the virtual device's, and none only if there was none |
| `DeviceValues.OwnValueStays` | openvino/samples/cpp/benchmark_app/utils.cpp:184-219 | a virtual device's own value stays iff nothing else is given, or the device is AUTO or HETERO, or it equals what the others fold to |
| `DeviceValues.AppliedEntries` | openvino/samples/cpp/benchmark_app/utils.cpp:258-282 | whatever is parsed is filed under a given device with a value free of separators |
| `DeviceValues.SurvivesExactly` | openvino/samples/cpp/benchmark_app/utils.cpp:89-284 | joined pairs parse to themselves iff each names a known device and has a non-empty value free of separators |
| `DeviceValues.FoldedRoundTrip` | openvino/samples/cpp/benchmark_app/utils.cpp:184-284 | without its braces a fold string parses to the folded entries iff each names a known device and has a non-empty value free of separators |
| `DeviceValues.EmptyValueIsLost` | openvino/samples/cpp/benchmark_app/utils.cpp:211-278 | an entry for which it does not, and a text that gives this entry |
| `InputParameters.ParseInputParameters` | openvino/samples/cpp/benchmark_app/utils.cpp:440-473 | the loop over the shrinking text terminates and refines the scan |
| `InputParameters.ScanItems` | openvino/samples/cpp/benchmark_app/utils.cpp:447-472 | well-formed text yields each value under its own or the last given name, or the error of an unknown name |
| `InputParameters.AcceptedIsWellFormed` | openvino/samples/cpp/benchmark_app/utils.cpp:447-472 | unless a known name can be cut, accepted text is the text of some list of items |
| `InputParameters.AcceptedExactly` | openvino/samples/cpp/benchmark_app/utils.cpp:447-472 | unless a known name can be cut, text is accepted iff it is well formed and its names are known |
| `InputParameters.UsableExactly` | openvino/samples/cpp/benchmark_app/utils.cpp:447-472 | name[value] is accepted iff the name is known and, if it has a closing bracket, ends there or goes on with a comma and nothing or again such a name |
| `InputParameters.MisreadExactly` | openvino/samples/cpp/benchmark_app/utils.cpp:447-472 | text that is not well formed is accepted iff a known name with a closing bracket is of that kind |
| `InputParameters.EachClosingCounts` | openvino/samples/cpp/benchmark_app/utils.cpp:449-469 | each turn of the loop consumes one closing bracket and files at least one value |
| `InputParameters.EachCharCounts` | openvino/samples/cpp/benchmark_app/utils.cpp:453-460 | the values filed have at least the characters of those written, and more if a name opens a bracket |
| `InputParameters.RenderedExactly` | openvino/samples/cpp/benchmark_app/utils.cpp:440-473 | rendering groups name[v1][v2],name2[v3] of known names and parsing gives each tensor name its values in order and no other, iff no name has a bracket and no value a closing one |
| `InputParameters.ClosingNameMisread` | openvino/samples/cpp/benchmark_app/utils.cpp:450-455 | a name that is cut, and what its text parses to |
| `InputParameters.ResolveExactly` | openvino/samples/cpp/benchmark_app/utils.cpp:877-913 | a name is a tensor name of some input, or else the first input with this friendly name decides and gives its tensor name |
| `InputParameters.BareForEveryInput` | openvino/samples/cpp/benchmark_app/utils.cpp:440-473 | values without a name, [v1][v2], go to every input in order, and to nothing else |
| `Counters.AddCounter` | openvino/samples/cpp/benchmark_app/statistics_report.cpp:159-170 | the search loop adds to the entry of the name or appends one |
| `Counters.GetAveragePerformanceCounters` | openvino/samples/cpp/benchmark_app/statistics_report.cpp:152-178 | one entry per name in order of first appearance, each the name's total over all requests divided by their number |
| `Counters.TotalsAddUp` | openvino/samples/cpp/benchmark_app/statistics_report.cpp:156-172 | every counter is in the total of exactly one name |
| `Counters.LittleIsLost` | openvino/samples/cpp/benchmark_app/statistics_report.cpp:152-178 | n times the averages is at most the sum of the input and falls short of it by at most n - 1 per name |
| `Counters.DivideTruncates` | openvino/samples/cpp/benchmark_app/statistics_report.cpp:174-177 | dividing drops the fraction of positive and negative totals |
| `Counters.AveragesNear` | openvino/samples/cpp/benchmark_app/statistics_report.cpp:152-178 | whatever the signs, n times the averages differ from the sum of the input by at most n - 1 per name |
| `Nv12.ChannelIsFloor` | src/compute/lo_engine.cc:396-404 | a channel is the formula rounded down, 0 exactly below 1 and 255 exactly from 255 on |
| `Nv12.PixelInside` | src/compute/lo_engine.cc:388-394 | the three samples of a pixel lie in their planes |
| `Nv12.ChromaTight` | src/compute/lo_engine.cc:388-390 | the last pixel's chroma pair ends the bytes read |
| `Nv12.FrameSize` | src/compute/lo_engine.cc:383-390 | the bytes read fit into the 3 * w * h / 2 of a frame iff width and height are even or one of them is 0, and then they are all of them |
| `Nv12.ChromaOfBlock` | src/compute/lo_engine.cc:389-390 | for even width the chroma index is that of the pixel's 2x2 block in a plane of pairs |
| `Nv12.BlockSharesChroma` | src/compute/lo_engine.cc:389-390 | two pixels share a chroma pair iff they are in the same block |
| `Nv12.RgbOfPixel` | src/compute/lo_engine.cc:402-404 | the output byte of a channel of a pixel lies in the output and has the pixel's value |
| `Nv12.PixelByFormula` | src/compute/lo_engine.cc:386-404 | red, green and blue of a pixel follow the three formulas, rounded down and clamped, from its luma and its block's U and V, which come in this order |
| `Nv12.PixelOfByte` | src/compute/lo_engine.cc:402-404 | every output byte is a channel of a pixel of the frame |
| `Nv12.ManualNV12ToRGB` | src/compute/lo_engine.cc:381-407 | the double loop writes every output byte with its pixel's clamped formula and nothing else |

## Left out

- Memory model: all interleavings are sequentially consistent; weaker orderings of the flags, the ring indices and the table are not part of this model.
- `used`, `peak_used` and `used_size` in the threaded allocator: plain variables, meaningful only sequentially; `used_size` is written and never read.
- TaskRing.Ring.constructor: failing allocations are left out.
- PagePool.CpuAlloc: the buffers of different pools are assumed not to overlap.
- Page-count rounding: `size + 4095` is not wrapped at 2^64.
- DRM ioctls, mmap and munmap: abstract steps; handles are assumed nonzero and distinct while open, mmap to return unused addresses, munmap and destroy not to fail.
- Waiting threads: one thread calls get_idle_request and wait_all, as in the benchmark; several would share `notify_one`.
- Start and end times of the request pool, throughput and percentiles, tensors set before each inference, GPU and NPU buffers.
- Measurement.Benchmark.Measure: of a run in which an inference fails it states only why the run ended; durations are natural numbers and time is assumed to pass.
- Floating point: weights, scales and latencies are reals, NV12 coefficients exact thousandths; IEEE rounding, `m.float()` narrowing and float16 are not modelled.
- GPTQ forward: the matrix product, bias, hooks, and layers whose shapes do not fit together; dimensions of 1 that torch would stretch count as not fitting.
- Patching: submodules are listed as the tensors they keep; that named_modules also visits them, and the choice of the symmetric path from the model's configuration, are not modelled.
- `pack_data` of floating-point arrays and of arrays that are not integers; shapes enter by their number of elements.
- Jaxpr parameters, nested jaxprs and constant conversion: equations stand for their primitive, and constant conversion is taken to keep values.
- TorchScript: nodes of nested blocks are not rewritten by the passes and appear only as uses; torch's type inference for inserted constants is not in the repository and assumed: in particular a list holding only None counts as a list of optional tensors, and an empty list, which torch may refuse or type otherwise, as neither kind; metadata and debug names are dropped.
- TorchScriptPasses.TorchGraph.Transform: the inputs and outputs that the decoder captures before the passes run are not modelled.
- Images: the reader is taken to deliver width * height * channels bytes; resizing, numpy files, random tensors of other types and the list of file names used are left out.
- DeviceValues.FoldedRoundTrip: the exact condition is stated for device names that are not empty and have no separators; for others it is sufficient that keys and values are so.
- InputParameters.ParseInputParameters: ports have at least one name, and names of outputs, which this caller does not pass, are not looked up.
- DeviceValues.ParseValuePerDevice: with no devices at all the original reads past an empty string while composing its error text; the model reports the error.
- Counter times beyond 64 bits, and the report's formatting.
- NV12 frames whose byte counts overflow a 32-bit int, and negative sizes, for which the loops do nothing.
- Device scoring, Vulkan, OpenCL, V4L2 capture, file saving, flags, help text, reports and the other frontends: plumbing around foreign interfaces.
