# omp iteration partitioning, modelled in Dafny

This project models the part of the `omp` C++ library that divides a loop's
iterations among worker threads. The library has two partitioners and one helper:

- **Static pool** (`static_iterator_thread_pool`). Worker `k` of `T`, with
  chunk size `c`, walks blocks of `c` consecutive indices. It starts at index
  `k*c` and jumps `c*T - c` after each block. The model proves that every
  index of the range reaches exactly one worker, exactly once, and that the
  worker is `(i / c) % T`.
- **Dynamic pool** (`dynamic_iterator_thread_pool`). All workers share one
  cursor and one claim counter. A claim is taken under the pool's mutex and
  records the next `chunk_size` cursors. The cursor stops at `end`. The worker
  then calls the loop body for every recorded cursor that is not `end`, and
  stops after a chunk that held `end`. The model proves that, under any
  interleaving of claims, the positions are visited in claim order, each
  exactly once, and each reports its distance from `begin` as its index.
- **`sequence_iterator`**. An integer cursor whose value is the number itself.
  It lets a parallel loop run over a plain range of numbers.

The project also models the schedule value objects, the default worker count,
and the defaulting of worker count and chunk size in the pool constructors.

Modules:

- `Schedules` (schedule.dfy): schedules and `default_num_threads`.
- `Pool` (pool.dfy): the iteration context, the call trace and the
  worker-count defaulting that both pools share.
- `StaticPool` (static_pool.dfy): the static pool.
- `DynamicPool` (dynamic_pool.dfy): the dynamic pool, as a class whose fields
  are the pool's shared state.
- `SequenceIter` (sequence_iter.dfy): the integer cursor, as a class.
- `ParallelFor` (parallel_for.dfy): the three `parallel_for` entry points.

Modelling choices:

- Iterators inside the pools are integer positions.
- The user's loop body is modelled as a trace. The body is called with the
  element and an `IterationContext`. Each call is recorded as a `Call` holding
  the element's position and that context.
- The hardware concurrency is a parameter.
- The dynamic pool's threads are modelled as an arbitrary order of claims.
  The static pool's workers share nothing, so each worker runs on its own.

## Model

| member | source | states |
|---|---|---|
| Schedules.MakeSchedule | src/omp.cpp:13-21 | a schedule keeps the chunk size it was built with, and the getter returns it unchanged |
| Schedules.DynamicSchedule | src/omp.cpp:23-26 | a dynamic schedule stores the requested chunk size unchanged |
| Schedules.StaticSchedule | src/omp.cpp:28-31 | a static schedule stores the requested chunk size unchanged |
| Schedules.SchedulesDifferOnlyInKind | src/omp.cpp:23-31 | the dynamic and static schedules of the same chunk size have the same chunk size and differ only in kind |
| Schedules.DefaultNumThreads | src/omp.cpp:9 | the default worker count is the hardware concurrency when that is nonzero, otherwise 4, so it is always at least 1 |
| Pool.ResolveThreads | include/omp.hpp:57 | a requested worker count of 0 becomes the default count; any other request is kept; the result is at least 1 |
| StaticPool.OwnedBelowSorted | include/omp.hpp:145-153 | the indices a static worker is given lie in the range and strictly increase |
| StaticPool.OwnerFormula | include/omp.hpp:144-145 | the worker that walks index i is (i / c) % T |
| StaticPool.StaticExactlyOnce | include/omp.hpp:144-153 | each index of the range goes to the one worker the block-cyclic formula names, exactly once, and to no other worker |
| StaticPool.StaticPartition | include/omp.hpp:140-155 | the T workers' index lists together hold every index of the range exactly once and nothing else, for any range length |
| StaticPool.VisitNext | include/omp.hpp:147-152 | one step of the inner loop inside a worker's block adds exactly the call for the current index |
| StaticPool.JumpToNextBlock | include/omp.hpp:145 | the jump of c*T - c after a full block lands on the start of the same worker's next block and skips no index of that worker |
| StaticPool.WalkBlock | include/omp.hpp:147-153 | the inner loop visits the block from its start up to c indices or the end of the range, and calls the body with the current cursor and index for each |
| StaticPool.Routine | include/omp.hpp:140-155 | a worker's calls are exactly its block-cyclic indices in increasing order, each with the cursor beg + index; no call's cursor is end |
| StaticPool.VisitsInRange | include/omp.hpp:149-150 | every call of a static worker passes the cursor for its own index, and that cursor is never end |
| StaticPool.IndicesOfVisits | include/omp.hpp:150 | the indices a worker reports to the body are exactly the indices it was given |
| StaticPool.TracesPartition | include/omp.hpp:123-126 | if each worker's trace is its block-cyclic walk, the traces together report every index of the range exactly once |
| StaticPool.StaticChunkAsWritten | include/omp.hpp:121 | as written, a nonzero request is kept and a request of 0 becomes the largest c with c*T <= total; the chunk is 0 exactly when 0 was requested and the range is shorter than T |
| StaticPool.OuterStep | include/omp.hpp:145-153 | one pass of a worker's outer loop, which runs only while the index is inside the range, never moves the index back, and leaves it unchanged exactly when the chunk is 0 |
| StaticPool.StaticDefaultChunkStalls | include/omp.hpp:121 | as written, the default chunk is 0 when the range is shorter than T, and a pass of the outer loop then leaves the index at 0 |
| StaticPool.ResolveStaticChunk | include/omp.hpp:121 | the chunk used is never 0 and equals the chunk of line 121 as written wherever that is nonzero: the requested one if nonzero, otherwise total / T; where line 121 gives 0 (no request, range shorter than T) it gives 1, the correction recorded under Findings |
| StaticPool.ResolvedChunkProgresses | include/omp.hpp:145-147 | with the resolved chunk, every pass of a worker's outer loop that starts inside the range moves the index forward |
| StaticPool.StaticIteratorThreadPool | include/omp.hpp:115-130 | the pool resolves T and the chunk size and runs workers 0 .. T-1; worker k's trace is its block-cyclic walk with the corrected chunk, and together they report every index exactly once |
| DynamicPool.DynamicChunk | include/omp.hpp:56 | a requested chunk size of 0 becomes 1; any other request is kept |
| DynamicPool.ClaimShape | include/omp.hpp:87-93 | in one claim, each slot that is not end is the cursor plus its offset, every slot after an end slot is end, and end is recorded exactly when the claim reaches past the last position |
| DynamicPool.ClaimAtEnd | include/omp.hpp:90-92 | once the cursor is at end, a claim records only end and hands out nothing |
| DynamicPool.LiveSlots | include/omp.hpp:87-93 | the slots of a claim that are not end are exactly the positions from the cursor up to its new value |
| DynamicPool.ClaimStartNext | include/omp.hpp:86-93 | each claim starts where the previous claim left the shared cursor: chunk_size further on, but never past end |
| DynamicPool.HandedOutExactlyOnce | include/omp.hpp:85-94 | after any number of claims, the slots handed out that are not end are the positions from begin up to the cursor, in order, each once |
| DynamicPool.ClaimsCoverRange | include/omp.hpp:85-94 | enough claims hand out every position of the range |
| DynamicPool.ChunkCallsOfClaim | include/omp.hpp:86-106 | for a genuine claim, the index reported for each slot, index + offset, is the slot's distance from begin |
| DynamicPool.DynamicIteratorThreadPool.constructor | include/omp.hpp:51-57 | the pool starts with the cursor at begin, the index at 0, the defaulted chunk size and the defaulted worker count |
| DynamicPool.DynamicIteratorThreadPool.Claim | include/omp.hpp:85-94 | a claim records chunk_size cursors, advances the cursor by chunk_size but never past end, and advances the shared index by chunk_size; the recorded cursors that are not end are exactly the positions from the old cursor to the new one |
| DynamicPool.DynamicIteratorThreadPool.Process | include/omp.hpp:96-106 | processing calls the body for every slot that is not end, in order, with index + offset, and reports done exactly when the chunk held end |
| DynamicPool.DynamicIteratorThreadPool.Step | include/omp.hpp:83-106 | one pass visits the positions from the old cursor to the new one, in order, with their distances from begin; the worker is done exactly when the chunk reached past the last position |
| DynamicPool.DynamicIteratorThreadPool.Routine | include/omp.hpp:78-108 | a worker running alone visits every remaining position, in order, and stops with the cursor at end |
| DynamicPool.DynamicIteratorThreadPool.RunWorkers | include/omp.hpp:59-65 | under any interleaving of the T workers' claims, the positions of the range are visited in claim order, each exactly once, each with its distance from begin and a worker index below T |
| ParallelFor.ParallelForDynamic | include/omp.hpp:236-240 | a dynamic loop visits every position of the range exactly once, whatever the interleaving |
| ParallelFor.ParallelForStatic | include/omp.hpp:242-246 | a static loop gives each worker its block-cyclic indices and reports every index exactly once |
| ParallelFor.ParallelForDefault | include/omp.hpp:248-252 | a loop without a schedule is a static loop with the default chunk size (corrected to 1 where line 121 gives 0), and reports every index exactly once |
| SequenceIter.SequenceIterator.Default | include/omp.hpp:169 | the default cursor is 0 |
| SequenceIter.SequenceIterator.constructor | include/omp.hpp:170-174 | a cursor built from a number holds that number |
| SequenceIter.SequenceIterator.Deref | include/omp.hpp:205 | dereferencing yields the stored number |
| SequenceIter.SequenceIterator.PreIncrement | include/omp.hpp:183-188 | prefix ++ advances the cursor by one but returns a new cursor holding the old value |
| SequenceIter.SequenceIterator.PreDecrement | include/omp.hpp:190-195 | prefix -- steps the cursor back by one but returns a new cursor holding the old value |
| SequenceIter.SequenceIterator.PostIncrement | include/omp.hpp:203 | postfix ++ advances the cursor by one and returns nothing |
| SequenceIter.SequenceIterator.PostDecrement | include/omp.hpp:204 | postfix -- steps the cursor back by one and returns nothing |
| SequenceIter.SequenceIterator.AddAssign | include/omp.hpp:197 | += moves this cursor in place and returns the cursor itself |
| SequenceIter.SequenceIterator.SubAssign | include/omp.hpp:198 | -= moves this cursor in place and returns the cursor itself |
| SequenceIter.SequenceIterator.Plus | include/omp.hpp:199 | + returns a new cursor i steps ahead and leaves the original unchanged |
| SequenceIter.SequenceIterator.Minus | include/omp.hpp:200 | - with a number returns a new cursor i steps back and leaves the original unchanged |
| SequenceIter.SequenceIterator.Less | include/omp.hpp:178 | a < b holds exactly when the difference a - b is negative |
| SequenceIter.SequenceIterator.Greater | include/omp.hpp:179 | a > b holds exactly when the difference a - b is positive |
| SequenceIter.SequenceIterator.LessEq | include/omp.hpp:180 | a <= b holds exactly when the difference a - b is not positive |
| SequenceIter.SequenceIterator.GreaterEq | include/omp.hpp:181 | a >= b holds exactly when the difference a - b is not negative |
| SequenceIter.SequenceIterator.Equal | include/omp.hpp:207 | a == b holds exactly when the difference a - b is 0 |
| SequenceIter.SequenceIterator.NotEqual | include/omp.hpp:208 | a != b holds exactly when the difference a - b is not 0 |
| SequenceIter.SequenceIterator.Distance | include/omp.hpp:201 | the difference a - b is the number of steps that takes b to a |
| SequenceIter.OrderFollowsIntegers | include/omp.hpp:178-208 | the comparisons follow the integers: exactly one of <, == and > holds, <= and >= are their unions, and != negates == |
| SequenceIter.DistanceMatchesOrder | include/omp.hpp:201 | the difference of two cursors is the difference of their numbers; it is antisymmetric, is zero exactly when they are equal, and is positive exactly when the first is ahead |
| SequenceIter.DistanceChains | include/omp.hpp:201 | differences add up along three cursors |
| SequenceIter.AddSubRoundTrip | include/omp.hpp:197-200 | + i gives a copy i steps ahead and - i on that copy gives back the original value; += i and then -= i returns the cursor to where it was; the copies are separate objects |

## Left out

- Threads, `join`, `std::mutex` and `unique_lock` are not modelled. The
  dynamic pool's critical section is an atomic claim. Any interleaving of the
  workers is an input sequence of worker indices.
- DynamicPool.DynamicIteratorThreadPool.RunWorkers: each worker processes its
  chunk right after the claim, with no other claim in between. In the library,
  other workers may claim while a chunk is processed, so the global call order
  can differ from claim order. The set of calls and their indices are the same.
- The static workers are run one after another. They share no state, so the
  calls each worker makes do not depend on the order.
- The loop body, called through `std::function`, is modelled as a trace of
  calls. Its effects are not modelled.
- `internal::thread_pool` and `parallel` (include/omp.hpp:29-45,
  src/omp.cpp:33-36) only spawn threads and make no partitioning decision.
  They are not part of this model.
- `critical` and `internal::global_mutex` (include/omp.hpp:254-266) only take
  a lock and call a function. They are not part of this model.
- `std::thread::hardware_concurrency()` is a parameter of the model.
- Overflow is not modelled. Integers are unbounded, so the model does not
  capture `int` overflow of the cursor's value, or overflow of `size_t` in
  `thread_index * chunk_size_` and `chunk_size_ * num_threads_`.
- The static pool's cursor can be advanced past `end`, and the model does not
  follow it there. This happens at the first advance, to `k*c`, when `k*c`
  exceeds the range (include/omp.hpp:144). It also happens at the jump after
  a worker's last block (include/omp.hpp:145). For a container iterator either
  advance is undefined behaviour. The model computes only the integer index,
  and states nothing about the cursor once it lies beyond the range.
- SequenceIter.SequenceIterator.Deref returns a copy of the stored number.
  The source's `operator*` returns `int&`, a reference into the cursor's own
  `val_` (include/omp.hpp:165, 205). A loop body that assigns to its element
  therefore moves the static worker's local cursor (include/omp.hpp:150-151),
  and later calls see shifted values. The model does not capture this
  aliasing. StaticPool.Routine's `element == beg + index` holds only for loop
  bodies that do not write to their element.
- `sequence_iterator::operator->` returns a pointer to the stored value. It is
  not modelled.
- StaticPool.ResolveStaticChunk returns 1 where include/omp.hpp:121 gives 0:
  when no chunk size is requested and the range is shorter than the worker
  count. On every other input it agrees with line 121. So on those inputs
  StaticPool.StaticIteratorThreadPool, ParallelFor.ParallelForStatic and
  ParallelFor.ParallelForDefault model the corrected library, which covers the
  range. The library as written never terminates there (see Findings).
  StaticPool.StaticChunkAsWritten is the as-written chunk.
- StaticPool.Routine takes a chunk size that is nonzero, or an empty range.
  With chunk 0 and a non-empty range the routine never terminates, which is
  recorded under Findings.
- Iterator categories other than integer positions are not modelled. The
  pools only copy, compare, advance and dereference iterators.
- main.cpp is an example program. It is not part of this model.

## Findings

| source | as written | input that shows it | evidently intended | confidence | as-written member | corrected member |
|---|---|---|---|---|---|---|
| include/omp.hpp:121 | with no requested chunk size, the static chunk is total / T, which is 0 when the range has fewer elements than workers; every worker then starts at index 0, and each pass of its outer loop adds 0 to the index, so the loop never ends | 3 elements, 8 workers, chunk size 0 (also the default `parallel_for` at include/omp.hpp:248-252) | a chunk of at least 1, so every worker's loop advances and the range is covered | not executed | StaticPool.StaticDefaultChunkStalls | StaticPool.ResolveStaticChunk, StaticPool.ResolvedChunkProgresses |
