/** The public entry points: a loop over a range under a dynamic schedule, a
    static schedule, or no schedule (which means a static one with chunk 0). */
module ParallelFor {
  import opened Schedules
  import opened Pool
  import StaticPool
  import DynamicPool

  /** A dynamic loop over positions begin .. end-1: every position is visited
      exactly once, in claim order, whatever the interleaving of the workers. */
  method ParallelForDynamic(sched: Schedule, begin: int, end: int, numThreads: nat, hardwareConcurrency: nat, order: seq<nat>)
    returns (log: seq<Call>)
    requires sched.kind == Dynamic
    requires begin <= end
    ensures DynamicPool.InOrder(log, begin, begin, end, ResolveThreads(numThreads, hardwareConcurrency))
  {
    var pool := new DynamicPool.DynamicIteratorThreadPool(ChunkSize(sched), begin, end, numThreads, hardwareConcurrency);
    log := pool.RunWorkers(order);
  }

  /** A static loop over positions beg .. end-1: worker k visits the indices the
      block-cyclic plan gives it, and together the workers visit each index once. */
  method ParallelForStatic(sched: Schedule, beg: int, end: int, numThreads: nat, hardwareConcurrency: nat)
    returns (traces: seq<seq<Call>>)
    requires sched.kind == Static
    requires beg <= end
    ensures |traces| == ResolveThreads(numThreads, hardwareConcurrency)
    ensures forall k :: 0 <= k < |traces| ==>
      traces[k] == StaticPool.Visits(beg, k, StaticPool.OwnedBelow(k, |traces|,
        StaticPool.ResolveStaticChunk(ChunkSize(sched), end - beg, |traces|), end - beg))
    ensures forall i: nat ::
      Occurrences(StaticPool.Flatten(StaticPool.TraceIndices(traces)), i) == Occurrences(Range(end - beg), i)
  {
    traces := StaticPool.StaticIteratorThreadPool(ChunkSize(sched), beg, end, numThreads, hardwareConcurrency);
  }

  /** Without a schedule the loop is static with the default chunk: each
      index of the range is handed to exactly one worker, once. */
  method ParallelForDefault(beg: int, end: int, numThreads: nat, hardwareConcurrency: nat)
    returns (traces: seq<seq<Call>>)
    requires beg <= end
    ensures |traces| == ResolveThreads(numThreads, hardwareConcurrency)
    ensures forall k :: 0 <= k < |traces| ==>
      traces[k] == StaticPool.Visits(beg, k, StaticPool.OwnedBelow(k, |traces|,
        StaticPool.ResolveStaticChunk(0, end - beg, |traces|), end - beg))
    ensures forall i: nat ::
      Occurrences(StaticPool.Flatten(StaticPool.TraceIndices(traces)), i) == Occurrences(Range(end - beg), i)
  {
    traces := ParallelForStatic(StaticSchedule(0), beg, end, numThreads, hardwareConcurrency);
  }
}
