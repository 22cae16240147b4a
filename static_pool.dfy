/** The static (block-cyclic) partitioner: worker k of t, with chunk size c,
    walks blocks of c consecutive indices starting at k*c with stride t*c. */
module StaticPool {
  import opened Pool

  /** The block index i lies in: blocks are c consecutive indices from 0. */
  function BlockOf(i: nat, c: nat): (b: nat)
    requires c >= 1
    decreases i
  {
    if i < c then 0 else BlockOf(i - c, c) + 1
  }

  /** The worker that walks block b: blocks are dealt to workers 0 .. t-1 in turn. */
  function WorkerOf(b: nat, t: nat): (k: nat)
    requires t >= 1
    ensures k < t
    decreases b
  {
    if b < t then b else WorkerOf(b - t, t)
  }

  /** The worker that the block-cyclic plan assigns index i to. */
  function Owner(i: nat, t: nat, c: nat): (k: nat)
    requires t >= 1 && c >= 1
    ensures k < t
  {
    WorkerOf(BlockOf(i, c), t)
  }

  /** The indices below n that worker k owns, in increasing order. With c = 0
      only the empty range is meaningful. */
  function OwnedBelow(k: nat, t: nat, c: nat, n: nat): (ids: seq<nat>)
    requires t >= 1 && (c >= 1 || n == 0)
    decreases n
  {
    if n == 0 then []
    else OwnedBelow(k, t, c, n - 1) + (if Owner(n - 1, t, c) == k then [n - 1] else [])
  }

  /** A worker's indices lie in the range and strictly increase. */
  lemma {:induction false} OwnedBelowSorted(k: nat, t: nat, c: nat, n: nat)
    requires t >= 1 && (c >= 1 || n == 0)
    ensures forall j :: 0 <= j < |OwnedBelow(k, t, c, n)| ==> OwnedBelow(k, t, c, n)[j] < n
    ensures forall a, b :: 0 <= a < b < |OwnedBelow(k, t, c, n)| ==>
      OwnedBelow(k, t, c, n)[a] < OwnedBelow(k, t, c, n)[b]
  {
    if n > 0 {
      OwnedBelowSorted(k, t, c, n - 1);
    }
  }

  /** The calls worker k makes for the given global indices. */
  function Visits(beg: int, k: nat, ids: seq<nat>): (calls: seq<Call>)
    ensures |calls| == |ids|
  {
    if ids == [] then []
    else Visits(beg, k, ids[..|ids| - 1]) + [Call(beg + ids[|ids| - 1], IterationContext(k, ids[|ids| - 1]))]
  }

  lemma VisitsAppend(beg: int, k: nat, ids: seq<nat>, i: nat)
    ensures Visits(beg, k, ids + [i]) == Visits(beg, k, ids) + [Call(beg + i, IterationContext(k, i))]
  {
    assert (ids + [i])[..|ids|] == ids;
  }

  /** Each visit passes the cursor beg + index for its own index. */
  lemma {:induction false} VisitsAt(beg: int, k: nat, ids: seq<nat>)
    ensures forall j :: 0 <= j < |ids| ==> Visits(beg, k, ids)[j] == Call(beg + ids[j], IterationContext(k, ids[j]))
  {
    if ids != [] {
      VisitsAt(beg, k, ids[..|ids| - 1]);
    }
  }

  /** Worker k is handed index i exactly when i is in range and the block-cyclic
      formula names k; no index appears twice. */
  lemma {:induction false} OwnedCount(k: nat, t: nat, c: nat, n: nat, i: nat)
    requires t >= 1 && c >= 1
    ensures Occurrences(OwnedBelow(k, t, c, n), i) == if i < n && Owner(i, t, c) == k then 1 else 0
  {
    if n > 0 {
      OwnedCount(k, t, c, n - 1, i);
      var prev := OwnedBelow(k, t, c, n - 1);
      if Owner(n - 1, t, c) == k {
        assert OwnedBelow(k, t, c, n)[..|prev|] == prev;
      } else {
        assert OwnedBelow(k, t, c, n) == prev;
      }
    }
  }

  lemma OwnedMember(k: nat, t: nat, c: nat, n: nat, i: nat)
    requires t >= 1 && c >= 1
    ensures i in OwnedBelow(k, t, c, n) <==> i < n && Owner(i, t, c) == k
  {
    OwnedCount(k, t, c, n, i);
    OccursIn(OwnedBelow(k, t, c, n), i);
  }

  /** Indices in [a, b) that worker k does not own add nothing to its list. */
  lemma {:induction false} SkipUnowned(k: nat, t: nat, c: nat, a: nat, b: nat)
    requires t >= 1 && c >= 1 && a <= b
    requires forall i: nat :: a <= i < b ==> Owner(i, t, c) != k
    ensures OwnedBelow(k, t, c, b) == OwnedBelow(k, t, c, a)
    decreases b - a
  {
    if a < b {
      SkipUnowned(k, t, c, a, b - 1);
    }
  }

  lemma {:induction false} MulMono(a: nat, b: nat, c: nat)
    requires a <= b
    ensures a * c <= b * c
    decreases b - a
  {
    if a < b {
      MulMono(a, b - 1, c);
      assert b * c == (b - 1) * c + c;
    }
  }

  /** Block a ends no later than a later block b starts. */
  lemma BlocksOrdered(a: nat, b: nat, c: nat)
    ensures a < b ==> a * c + c <= b * c
    ensures a <= b ==> a * c <= b * c
  {
    if a < b {
      MulMono(a + 1, b, c);
      assert (a + 1) * c == a * c + c;
    }
    if a <= b {
      MulMono(a, b, c);
    }
  }

  /** Where block q + 1 and block q + t start, relative to block q. */
  lemma BlockStarts(q: nat, t: nat, c: nat)
    requires t >= 1
    ensures (q + 1) * c == q * c + c
    ensures (q + t) * c == q * c + c * t
    ensures c * t - c >= 0
  {
    MulMono(1, t, c);
  }

  /** Block BlockOf(i, c) spans indices BlockOf(i, c)*c .. BlockOf(i, c)*c + c-1. */
  lemma {:induction false} BlockBounds(i: nat, c: nat)
    requires c >= 1
    ensures BlockOf(i, c) * c <= i < BlockOf(i, c) * c + c
    decreases i
  {
    if i >= c {
      BlockBounds(i - c, c);
      BlockStarts(BlockOf(i - c, c), 1, c);
    }
  }

  /** Every index of block q (indices q*c .. q*c+c-1) lies in block q. */
  lemma InBlock(i: nat, q: nat, c: nat)
    requires c >= 1
    requires q * c <= i < q * c + c
    ensures BlockOf(i, c) == q
  {
    var p := BlockOf(i, c);
    BlockBounds(i, c);
    BlocksOrdered(p, q, c);
    BlocksOrdered(q, p, c);
  }

  /** Every index of block q belongs to the worker of block q. */
  lemma OwnerInBlock(i: nat, q: nat, t: nat, c: nat)
    requires t >= 1 && c >= 1
    requires q * c <= i < q * c + c
    ensures Owner(i, t, c) == WorkerOf(q, t)
  {
    InBlock(i, q, c);
  }

  /** Two block numbers less than t apart fall to different workers. */
  lemma {:induction false} WorkersDistinct(a: nat, b: nat, t: nat)
    requires t >= 1 && a < b < a + t
    ensures WorkerOf(a, t) != WorkerOf(b, t)
    decreases a
  {
    if a >= t {
      WorkersDistinct(a - t, b - t, t);
    } else if b >= t {
      assert WorkerOf(b, t) == WorkerOf(b - t, t) == b - t;
    }
  }

  /** The blocks worker WorkerOf(q, t) skips between block q and block q + t:
      nothing up to any m in that gap is added to its list. */
  lemma SkipToNextBlock(k: nat, q: nat, t: nat, c: nat, m: nat)
    requires t >= 1 && c >= 1 && WorkerOf(q, t) == k
    requires (q + 1) * c <= m <= (q + t) * c
    ensures OwnedBelow(k, t, c, m) == OwnedBelow(k, t, c, (q + 1) * c)
  {
    forall i: nat | (q + 1) * c <= i < m
      ensures Owner(i, t, c) != k
    {
      var p := BlockOf(i, c);
      BlockBounds(i, c);
      BlocksOrdered(p, q + 1, c);
      BlocksOrdered(q + t, p, c);
      WorkersDistinct(q, p, t);
    }
    SkipUnowned(k, t, c, (q + 1) * c, m);
  }

  /** Worker k owns nothing before its first block, which starts at k*c. */
  lemma NothingBeforeFirstBlock(k: nat, t: nat, c: nat, m: nat)
    requires k < t && c >= 1 && m <= k * c
    ensures OwnedBelow(k, t, c, m) == []
  {
    forall i: nat | 0 <= i < m
      ensures Owner(i, t, c) != k
    {
      var p := BlockOf(i, c);
      BlockBounds(i, c);
      BlocksOrdered(k, p, c);
    }
    SkipUnowned(k, t, c, 0, m);
  }

  lemma DivInBlock(i: nat, q: nat, c: nat)
    requires c >= 1
    requires q * c <= i < q * c + c
    ensures i / c == q
  {
    var p, r := i / c, i % c;
    assert i == p * c + r && 0 <= r < c;
    BlocksOrdered(p, q, c);
    BlocksOrdered(q, p, c);
  }

  lemma {:induction false} WorkerOfIsMod(b: nat, t: nat)
    requires t >= 1
    ensures WorkerOf(b, t) == b % t
    decreases b
  {
    if b < t {
      DivInBlock(b, 0, t);
    } else {
      WorkerOfIsMod(b - t, t);
      DivInBlock(b, (b - t) / t + 1, t) by {
        assert b - t == (b - t) / t * t + (b - t) % t;
        BlockStarts((b - t) / t, 1, t);
      }
    }
  }

  /** The key fact of the static schedule: index i goes to worker (i / c) % t. */
  lemma OwnerFormula(i: nat, t: nat, c: nat)
    requires t >= 1 && c >= 1
    ensures Owner(i, t, c) == (i / c) % t
  {
    BlockBounds(i, c);
    DivInBlock(i, BlockOf(i, c), c);
    WorkerOfIsMod(BlockOf(i, c), t);
  }

  /** Visiting the next index of block q extends worker WorkerOf(q, t)'s calls by one. */
  lemma VisitNext(beg: int, k: nat, t: nat, c: nat, q: nat, index: nat)
    requires t >= 1 && c >= 1 && WorkerOf(q, t) == k
    requires q * c <= index < q * c + c
    ensures Visits(beg, k, OwnedBelow(k, t, c, index + 1))
      == Visits(beg, k, OwnedBelow(k, t, c, index)) + [Call(beg + index, IterationContext(k, index))]
  {
    OwnerInBlock(index, q, t, c);
    VisitsAppend(beg, k, OwnedBelow(k, t, c, index), index);
  }

  /** The jump of c*t - c after a finished block lands on the worker's next
      block, and nothing it jumps over (or past the end) is the worker's. */
  lemma JumpToNextBlock(k: nat, t: nat, c: nat, q: nat, index: nat, total: nat)
    requires t >= 1 && c >= 1 && WorkerOf(q, t) == k
    requires index == q * c + c && index < total
    ensures c * t - c >= 0
    ensures index + (c * t - c) == (q + t) * c
    ensures WorkerOf(q + t, t) == k
    ensures OwnedBelow(k, t, c, Min(index + (c * t - c), total)) == OwnedBelow(k, t, c, index)
  {
    BlockStarts(q, t, c);
    SkipToNextBlock(k, q, t, c, Min(index + (c * t - c), total));
  }

  /** Every call of a worker passes the cursor beg + index for its own index,
      and no cursor is the end of the range. */
  lemma VisitsInRange(beg: int, k: nat, t: nat, c: nat, total: nat)
    requires t >= 1 && (c >= 1 || total == 0)
    ensures forall j :: 0 <= j < |Visits(beg, k, OwnedBelow(k, t, c, total))| ==>
      Visits(beg, k, OwnedBelow(k, t, c, total))[j].element == beg + Visits(beg, k, OwnedBelow(k, t, c, total))[j].ctx.index
      && Visits(beg, k, OwnedBelow(k, t, c, total))[j].element != beg + total
  {
    OwnedBelowSorted(k, t, c, total);
    VisitsAt(beg, k, OwnedBelow(k, t, c, total));
  }

  /** The inner loop of a worker: walk block q from its start, one index at a
      time, until the block or the range ends. */
  method WalkBlock(k: nat, t: nat, c: nat, beg: int, end: int, ghost q: nat, cur0: int, index0: nat, calls0: seq<Call>)
    returns (cur: int, index: nat, calls: seq<Call>)
    requires t >= 1 && c >= 1 && WorkerOf(q, t) == k && beg <= end
    requires index0 == q * c && index0 < end - beg && cur0 == beg + index0
    requires calls0 == Visits(beg, k, OwnedBelow(k, t, c, index0))
    ensures index == Min(index0 + c, end - beg) && cur == beg + index
    ensures calls == Visits(beg, k, OwnedBelow(k, t, c, index))
  {
    cur, index, calls := cur0, index0, calls0;
    var offset := 0;
    while offset < c && index < end - beg
      invariant 0 <= offset <= c
      invariant index == index0 + offset && index <= end - beg
      invariant cur == beg + index
      invariant calls == Visits(beg, k, OwnedBelow(k, t, c, index))
      decreases c - offset
    {
      assert cur != end;
      VisitNext(beg, k, t, c, q, index);
      calls := calls + [Call(cur, IterationContext(k, index))];
      cur := cur + 1;
      index := index + 1;
      offset := offset + 1;
    }
  }

  /** One worker of the static pool. Terminates exactly when c >= 1 or the
      range is empty; with c = 0 and a non-empty range the loop never advances. */
  method Routine(k: nat, t: nat, c: nat, beg: int, end: int) returns (calls: seq<Call>)
    requires k < t
    requires beg <= end
    requires c >= 1 || end - beg == 0
    ensures calls == Visits(beg, k, OwnedBelow(k, t, c, end - beg))
    ensures forall j :: 0 <= j < |calls| ==>
      calls[j].element == beg + calls[j].ctx.index && calls[j].element != end
  {
    var total: nat := end - beg;
    var cur := beg + k * c;
    var index: nat := k * c;
    ghost var q: nat := k;
    calls := [];
    if c >= 1 {
      NothingBeforeFirstBlock(k, t, c, Min(index, total));
    }
    while index < total
      invariant cur == beg + index
      invariant index < total ==> index == q * c && WorkerOf(q, t) == k
      invariant calls == Visits(beg, k, OwnedBelow(k, t, c, Min(index, total)))
      decreases total - index
    {
      cur, index, calls := WalkBlock(k, t, c, beg, end, q, cur, index, calls);
      ghost var walked := index;
      if index < total {
        JumpToNextBlock(k, t, c, q, index, total);
      } else {
        BlockStarts(q, t, c);
      }
      index := index + (c * t - c);
      cur := cur + (c * t - c);
      q := q + t;
      assert OwnedBelow(k, t, c, Min(index, total)) == OwnedBelow(k, t, c, walked);
    }
    VisitsInRange(beg, k, t, c, total);
  }

  /** The chunk size the constructor resolves, as written: a requested 0 becomes
      total / t, which is 0 whenever the range is shorter than t. */
  function StaticChunkAsWritten(chunkSize: nat, total: nat, t: nat): (c: nat)
    requires t >= 1
    ensures chunkSize != 0 ==> c == chunkSize
    ensures chunkSize == 0 ==> c * t <= total < c * t + t
    ensures c == 0 <==> chunkSize == 0 && total < t
  {
    if chunkSize != 0 then chunkSize else total / t
  }

  /** The index of a worker after one pass of its outer loop: the inner loop
      walks at most c indices and stops at total, then the index jumps by c*t - c. */
  function OuterStep(index: nat, t: nat, c: nat, total: nat): (next: nat)
    requires t >= 1 && index < total
    ensures next >= index
    ensures next == index <==> c == 0
  {
    BlockStarts(0, t, c);
    Min(index + c, total) + (c * t - c)
  }

  /** As written, a default chunk on a range shorter than the worker count is 0:
      every worker starts at index 0 and its outer loop never moves, so a
      non-empty range never finishes (for instance 3 elements on 8 workers). */
  lemma StaticDefaultChunkStalls(total: nat, t: nat)
    requires 0 < total < t
    ensures StaticChunkAsWritten(0, total, t) == 0
    ensures forall k: nat :: k * StaticChunkAsWritten(0, total, t) == 0
    ensures OuterStep(0, t, StaticChunkAsWritten(0, total, t), total) == 0 < total
  {
  }

  /** The chunk size the static pool uses: the requested one, else total / t,
      but never 0, so that every worker's loop advances. */
  function ResolveStaticChunk(chunkSize: nat, total: nat, t: nat): (c: nat)
    requires t >= 1
    ensures c >= 1
    ensures chunkSize != 0 ==> c == chunkSize
    ensures chunkSize == 0 && total >= t ==> c == total / t
    ensures chunkSize == 0 && total < t ==> c == 1
    ensures StaticChunkAsWritten(chunkSize, total, t) != 0 ==> c == StaticChunkAsWritten(chunkSize, total, t)
  {
    if chunkSize != 0 then chunkSize
    else if total / t == 0 then 1
    else total / t
  }

  /** With the resolved chunk every pass of a worker's outer loop that starts
      inside the range moves its index forward. */
  lemma ResolvedChunkProgresses(chunkSize: nat, total: nat, t: nat, index: nat)
    requires t >= 1 && index < total
    ensures OuterStep(index, t, ResolveStaticChunk(chunkSize, total, t), total) > index
  {
    var c := ResolveStaticChunk(chunkSize, total, t);
    BlockStarts(0, t, c);
  }

  /** Any index of the range is handed to exactly one of the t workers, the one
      the block-cyclic formula names, and to that worker once. */
  lemma StaticExactlyOnce(t: nat, c: nat, total: nat, i: nat)
    requires t >= 1 && c >= 1 && i < total
    ensures Owner(i, t, c) < t
    ensures Occurrences(OwnedBelow(Owner(i, t, c), t, c, total), i) == 1
    ensures forall k: nat :: k != Owner(i, t, c) ==> i !in OwnedBelow(k, t, c, total)
  {
    OwnedCount(Owner(i, t, c), t, c, total, i);
    forall k: nat | k != Owner(i, t, c)
      ensures i !in OwnedBelow(k, t, c, total)
    {
      OwnedMember(k, t, c, total, i);
    }
  }

  /** The lists of all t workers, worker k's at position k. */
  function WorkerLists(t: nat, c: nat, total: nat): (ls: seq<seq<nat>>)
    requires t >= 1 && (c >= 1 || total == 0)
    ensures |ls| == t
  {
    seq(t, k requires 0 <= k < t => OwnedBelow(k, t, c, total))
  }

  /** Lists one after the other. */
  function Flatten(lists: seq<seq<nat>>): (all: seq<nat>)
  {
    if lists == [] then [] else Flatten(lists[..|lists| - 1]) + lists[|lists| - 1]
  }

  /** If only list o can hold x, and holds it once when present, the lists
      one after the other hold x once when present. */
  lemma {:induction false} FlattenCount(lists: seq<seq<nat>>, x: nat, o: nat, present: bool)
    requires forall k :: 0 <= k < |lists| ==> Occurrences(lists[k], x) == if present && k == o then 1 else 0
    ensures Occurrences(Flatten(lists), x) == if present && o < |lists| then 1 else 0
  {
    if lists != [] {
      var prev, last := lists[..|lists| - 1], lists[|lists| - 1];
      FlattenCount(prev, x, o, present);
      OccurrencesAppend(Flatten(prev), last, x);
    }
  }

  /** Coverage and disjointness: all t workers together visit every index of
      the range exactly once and nothing else, whether or not t*c divides the range. */
  lemma StaticPartition(t: nat, c: nat, total: nat)
    requires t >= 1 && (c >= 1 || total == 0)
    ensures forall i: nat :: Occurrences(Flatten(WorkerLists(t, c, total)), i) == Occurrences(Range(total), i)
  {
    var ls := WorkerLists(t, c, total);
    forall i: nat
      ensures Occurrences(Flatten(ls), i) == Occurrences(Range(total), i)
    {
      RangeOccurrences(total, i);
      if c == 0 {
        FlattenCount(ls, i, 0, false);
      } else {
        forall k | 0 <= k < t
          ensures Occurrences(ls[k], i) == if i < total && k == Owner(i, t, c) then 1 else 0
        {
          OwnedCount(k, t, c, total, i);
        }
        FlattenCount(ls, i, Owner(i, t, c), i < total);
      }
    }
  }

  /** The global indices a trace reports, in order. */
  function Indices(calls: seq<Call>): (ids: seq<nat>)
    ensures |ids| == |calls|
  {
    if calls == [] then [] else Indices(calls[..|calls| - 1]) + [calls[|calls| - 1].ctx.index]
  }

  /** The global indices of every worker's trace, worker k's at position k. */
  function TraceIndices(traces: seq<seq<Call>>): (ls: seq<seq<nat>>)
    ensures |ls| == |traces|
  {
    seq(|traces|, k requires 0 <= k < |traces| => Indices(traces[k]))
  }

  /** A worker's visits report exactly the indices it was given. */
  lemma {:induction false} IndicesOfVisits(beg: int, k: nat, ids: seq<nat>)
    ensures Indices(Visits(beg, k, ids)) == ids
  {
    if ids != [] {
      IndicesOfVisits(beg, k, ids[..|ids| - 1]);
      var v := Visits(beg, k, ids);
      assert v[..|v| - 1] == Visits(beg, k, ids[..|ids| - 1]);
      assert ids == ids[..|ids| - 1] + [ids[|ids| - 1]];
    }
  }

  /** When every worker's trace is its block-cyclic visits, the workers together
      report each index of the range exactly once and nothing else. */
  lemma TracesPartition(traces: seq<seq<Call>>, beg: int, c: nat, total: nat)
    requires |traces| >= 1 && (c >= 1 || total == 0)
    requires forall k :: 0 <= k < |traces| ==> traces[k] == Visits(beg, k, OwnedBelow(k, |traces|, c, total))
    ensures forall i: nat :: Occurrences(Flatten(TraceIndices(traces)), i) == Occurrences(Range(total), i)
  {
    var t := |traces|;
    forall k | 0 <= k < t
      ensures TraceIndices(traces)[k] == WorkerLists(t, c, total)[k]
    {
      IndicesOfVisits(beg, k, OwnedBelow(k, t, c, total));
    }
    assert TraceIndices(traces) == WorkerLists(t, c, total);
    StaticPartition(t, c, total);
  }

  /** The static pool: resolves the worker count and chunk size, runs workers
      0 .. t-2 on spawned threads and worker t-1 on the calling thread. The
      workers share nothing, so each is run here on its own; traces[k] is what
      worker k passes to the loop body. */
  method StaticIteratorThreadPool(chunkSize: nat, beg: int, end: int, numThreads: nat, hardwareConcurrency: nat)
    returns (traces: seq<seq<Call>>)
    requires beg <= end
    ensures |traces| == ResolveThreads(numThreads, hardwareConcurrency)
    ensures forall k :: 0 <= k < |traces| ==>
      traces[k] == Visits(beg, k, OwnedBelow(k, |traces|, ResolveStaticChunk(chunkSize, end - beg, |traces|), end - beg))
    ensures forall i: nat :: Occurrences(Flatten(TraceIndices(traces)), i) == Occurrences(Range(end - beg), i)
  {
    var t := ResolveThreads(numThreads, hardwareConcurrency);
    var c := ResolveStaticChunk(chunkSize, end - beg, t);
    traces := [];
    var i := 0;
    while i < t - 1
      invariant 0 <= i <= t - 1
      invariant |traces| == i
      invariant forall k :: 0 <= k < i ==> traces[k] == Visits(beg, k, OwnedBelow(k, t, c, end - beg))
    {
      var calls := Routine(i, t, c, beg, end);
      traces := traces + [calls];
      i := i + 1;
    }
    var calls := Routine(t - 1, t, c, beg, end);
    traces := traces + [calls];
    TracesPartition(traces, beg, c, end - beg);
  }
}
