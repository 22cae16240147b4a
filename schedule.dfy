/** Schedule value objects and the process-wide default worker count. */
module Schedules {

  /** The two schedule classes differ only in which partitioner consumes them. */
  datatype Kind = Static | Dynamic

  /** A schedule carries one chunk size; 0 asks the partitioner for its default. */
  datatype Schedule = Schedule(kind: Kind, chunk: nat)

  /** The common base constructor: stores the chunk size as given. */
  function MakeSchedule(kind: Kind, chunkSize: nat): (s: Schedule)
    ensures s.kind == kind
    ensures ChunkSize(s) == chunkSize
  {
    Schedule(kind, chunkSize)
  }

  /** The const getter; a schedule is never changed after construction. */
  function ChunkSize(s: Schedule): (c: nat)
  {
    s.chunk
  }

  function DynamicSchedule(chunkSize: nat): (s: Schedule)
    ensures s.kind == Dynamic && ChunkSize(s) == chunkSize
  {
    MakeSchedule(Dynamic, chunkSize)
  }

  function StaticSchedule(chunkSize: nat): (s: Schedule)
    ensures s.kind == Static && ChunkSize(s) == chunkSize
  {
    MakeSchedule(Static, chunkSize)
  }

  /** The two constructors keep the same chunk size and differ only in kind. */
  lemma SchedulesDifferOnlyInKind(chunkSize: nat)
    ensures ChunkSize(DynamicSchedule(chunkSize)) == ChunkSize(StaticSchedule(chunkSize))
    ensures DynamicSchedule(chunkSize) != StaticSchedule(chunkSize)
    ensures DynamicSchedule(chunkSize).(kind := Static) == StaticSchedule(chunkSize)
  {
  }

  /** The worker count used when none is requested: the hardware concurrency
      reported by the platform, or 4 when the platform reports 0. */
  function DefaultNumThreads(hardwareConcurrency: nat): (n: nat)
    ensures n >= 1
    ensures hardwareConcurrency != 0 ==> n == hardwareConcurrency
    ensures hardwareConcurrency == 0 ==> n == 4
  {
    if hardwareConcurrency != 0 then hardwareConcurrency else 4
  }
}
