/** The dynamic partitioner: workers share one cursor and one claim counter;
    each claim, taken under the pool's mutex, hands out the next chunk of
    positions, and the worker processes that chunk outside the lock. */
module DynamicPool {
  import opened Pool

  /** A requested chunk size of 0 becomes 1. */
  function DynamicChunk(chunkSize: nat): (c: nat)
    ensures c >= 1
    ensures chunkSize != 0 ==> c == chunkSize
    ensures chunkSize == 0 ==> c == 1
  {
    if chunkSize != 0 then chunkSize else 1
  }

  /** The c slots one claim records starting from cursor cur: the cursor is
      copied, then advanced unless it already equals end. */
  function ClaimSlots(cur: int, end: int, c: nat): (s: seq<int>)
    ensures |s| == c
  {
    if c == 0 then [] else ClaimSlots(cur, end, c - 1) + [Min(cur + c - 1, end)]
  }

  /** The positions a .. b-1 in order. */
  function Positions(a: int, b: int): (s: seq<int>)
    requires a <= b
    ensures |s| == b - a
    ensures forall j :: 0 <= j < |s| ==> s[j] == a + j
  {
    seq(b - a, j requires 0 <= j < b - a => a + j)
  }

  /** Consecutive position runs join into one. */
  lemma PositionsAppend(a: int, b: int, c: int)
    requires a <= b <= c
    ensures Positions(a, b) + Positions(b, c) == Positions(a, c)
  {
    var l, r := Positions(a, b), Positions(b, c);
    assert forall j :: 0 <= j < |l + r| ==> (l + r)[j] == Positions(a, c)[j];
  }

  /** The slots of a chunk that are not end, in order. */
  function Live(slots: seq<int>, end: int): (live: seq<int>)
  {
    if slots == [] then []
    else Live(slots[..|slots| - 1], end) + (if slots[|slots| - 1] != end then [slots[|slots| - 1]] else [])
  }

  /** Inside one claim the live slots come first, each the cursor plus its
      offset, and once a slot is end every later one is end. */
  lemma {:induction false} ClaimShape(cur: int, end: int, c: nat)
    requires cur <= end
    ensures forall j :: 0 <= j < c && ClaimSlots(cur, end, c)[j] != end ==> ClaimSlots(cur, end, c)[j] == cur + j
    ensures forall a, b :: 0 <= a < b < c && ClaimSlots(cur, end, c)[a] == end ==> ClaimSlots(cur, end, c)[b] == end
    ensures end in ClaimSlots(cur, end, c) <==> cur + c > end
  {
    if c > 0 {
      ClaimShape(cur, end, c - 1);
      var s := ClaimSlots(cur, end, c);
      assert s == ClaimSlots(cur, end, c - 1) + [Min(cur + c - 1, end)];
      assert s[c - 1] == Min(cur + c - 1, end);
      if cur + c - 1 < end {
        assert end !in ClaimSlots(cur, end, c - 1);
      }
    }
  }

  /** Once the shared cursor has reached end, a claim holds end only. */
  lemma {:induction false} ClaimAtEnd(end: int, c: nat)
    ensures forall j :: 0 <= j < |ClaimSlots(end, end, c)| ==> ClaimSlots(end, end, c)[j] == end
    ensures Live(ClaimSlots(end, end, c), end) == []
  {
    if c > 0 {
      ClaimAtEnd(end, c - 1);
      assert ClaimSlots(end, end, c)[..c - 1] == ClaimSlots(end, end, c - 1);
    }
  }

  /** The live slots of a claim are exactly the positions from the cursor up
      to the cursor's new value. */
  lemma {:induction false} LiveSlots(cur: int, end: int, c: nat)
    requires cur <= end
    ensures Live(ClaimSlots(cur, end, c), end) == Positions(cur, Min(cur + c, end))
  {
    if c > 0 {
      LiveSlots(cur, end, c - 1);
      var s, prev := ClaimSlots(cur, end, c), ClaimSlots(cur, end, c - 1);
      assert s == prev + [Min(cur + c - 1, end)];
      assert s[..c - 1] == prev;
      if cur + c - 1 < end {
        assert Live(s, end) == Live(prev, end) + [cur + c - 1];
        PositionsAppend(cur, cur + c - 1, cur + c);
      } else {
        assert Live(s, end) == Live(prev, end);
      }
    }
  }

  /** Where the n-th claim starts, counting from 0. */
  function ClaimStart(begin: int, end: int, c: nat, n: nat): (p: int)
    requires begin <= end
    ensures begin <= p <= end
  {
    Min(begin + n * c, end)
  }

  /** Each claim starts where the previous one left the cursor. */
  lemma ClaimStartNext(begin: int, end: int, c: nat, n: nat)
    requires begin <= end
    ensures ClaimStart(begin, end, c, n + 1) == Min(ClaimStart(begin, end, c, n) + c, end)
  {
    assert (n + 1) * c == n * c + c;
  }

  /** The live slots of the first n claims, in claim order. */
  function HandedOut(begin: int, end: int, c: nat, n: nat): (handed: seq<int>)
    requires begin <= end
  {
    if n == 0 then []
    else HandedOut(begin, end, c, n - 1) + Live(ClaimSlots(ClaimStart(begin, end, c, n - 1), end, c), end)
  }

  /** However many claims are made, by whichever workers, the live slots handed
      out so far are the positions from begin up to the cursor, each once. */
  lemma {:induction false} HandedOutExactlyOnce(begin: int, end: int, c: nat, n: nat)
    requires begin <= end
    ensures HandedOut(begin, end, c, n) == Positions(begin, ClaimStart(begin, end, c, n))
  {
    if n > 0 {
      HandedOutExactlyOnce(begin, end, c, n - 1);
      var p := ClaimStart(begin, end, c, n - 1);
      var q := Min(p + c, end);
      LiveSlots(p, end, c);
      ClaimStartNext(begin, end, c, n - 1);
      PositionsAppend(begin, p, q);
      assert HandedOut(begin, end, c, n) == Positions(begin, p) + Positions(p, q);
    }
  }

  /** Enough claims hand out the whole range. */
  lemma ClaimsCoverRange(begin: int, end: int, c: nat, n: nat)
    requires begin <= end && n * c >= end - begin
    ensures HandedOut(begin, end, c, n) == Positions(begin, end)
  {
    HandedOutExactlyOnce(begin, end, c, n);
  }

  /** The calls a worker makes for one claimed chunk: one per live slot, in
      order, with global index start + offset. */
  function ChunkCalls(w: nat, start: nat, slots: seq<int>, end: int): (calls: seq<Call>)
  {
    if slots == [] then []
    else
      var j := |slots| - 1;
      ChunkCalls(w, start, slots[..j], end)
        + (if slots[j] != end then [Call(slots[j], IterationContext(w, start + j))] else [])
  }

  lemma PositionCallsAppend(w: nat, begin: int, a: int, b: int, c: int)
    requires begin <= a <= b <= c
    ensures PositionCalls(w, begin, a, b) + PositionCalls(w, begin, b, c) == PositionCalls(w, begin, a, c)
  {
  }

  /** The global index a worker reports for a slot of a genuine claim is the
      slot's distance from begin. */
  lemma {:induction false} ChunkCallsOfClaim(w: nat, begin: int, cur: int, end: int, c: nat, start: nat)
    requires begin <= cur <= end
    requires cur < end ==> cur == begin + start
    ensures ChunkCalls(w, start, ClaimSlots(cur, end, c), end) == PositionCalls(w, begin, cur, Min(cur + c, end))
  {
    if c > 0 {
      ChunkCallsOfClaim(w, begin, cur, end, c - 1, start);
      var s := ClaimSlots(cur, end, c);
      assert s[..c - 1] == ClaimSlots(cur, end, c - 1);
      if cur + c - 1 < end {
        PositionCallsAppend(w, begin, cur, cur + c - 1, cur + c);
      }
    }
  }

  /** A log of calls that visits the positions from .. to-1 in order, each
      reporting its distance from begin, each made by one of t workers. */
  ghost predicate InOrder(log: seq<Call>, begin: int, from: int, to: int, t: nat)
  {
    && |log| == to - from
    && forall j :: 0 <= j < |log| ==>
         log[j].element == from + j && log[j].ctx.index == from + j - begin && log[j].ctx.threadIndex < t
  }

  /** The shared state of one dynamic parallel loop. */
  class DynamicIteratorThreadPool {
    var cur: int
    var index: nat
    ghost const begin: int
    const end: int
    const chunkSize: nat
    const numThreads: nat
    /** How many claims have been made so far, by all workers together. */
    ghost var claims: nat

    ghost predicate Valid()
      reads this
    {
      && begin <= cur <= end
      && chunkSize >= 1 && numThreads >= 1
      && index == claims * chunkSize
      && cur == begin + Min(index, end - begin)
    }

    constructor (chunkSize: nat, begin: int, end: int, numThreads: nat, hardwareConcurrency: nat)
      requires begin <= end
      ensures Valid()
      ensures this.begin == begin && this.end == end && cur == begin && index == 0 && claims == 0
      ensures this.chunkSize == DynamicChunk(chunkSize)
      ensures this.numThreads == ResolveThreads(numThreads, hardwareConcurrency)
    {
      this.cur := begin;
      this.end := end;
      this.begin := begin;
      this.index := 0;
      this.chunkSize := DynamicChunk(chunkSize);
      this.numThreads := ResolveThreads(numThreads, hardwareConcurrency);
      this.claims := 0;
    }

    /** The critical section: record the next chunkSize cursors, advancing the
        shared cursor (never past end) and the claim counter once per slot. */
    method Claim() returns (start: nat, chunk: array<int>)
      requires Valid()
      modifies this
      ensures Valid() && fresh(chunk)
      ensures claims == old(claims) + 1
      ensures start == old(index) && index == old(index) + chunkSize
      ensures cur == Min(old(cur) + chunkSize, end)
      ensures old(cur) == ClaimStart(begin, end, chunkSize, old(claims))
      ensures chunk[..] == ClaimSlots(old(cur), end, chunkSize)
      ensures Live(chunk[..], end) == Positions(old(cur), cur)
    {
      chunk := new int[chunkSize];
      start := index;
      var offset := 0;
      while offset < chunk.Length
        invariant 0 <= offset <= chunk.Length == chunkSize
        invariant index == old(index) + offset && claims == old(claims)
        invariant cur == Min(old(cur) + offset, end)
        invariant chunk[..offset] == ClaimSlots(old(cur), end, offset)
      {
        index := index + 1;
        chunk[offset] := cur;
        assert chunk[..offset + 1] == ClaimSlots(old(cur), end, offset + 1) by {
          assert chunk[..offset + 1] == chunk[..offset] + [cur];
        }
        if cur != end {
          cur := cur + 1;
        }
        offset := offset + 1;
      }
      assert chunk[..] == chunk[..chunk.Length];
      assert (claims + 1) * chunkSize == claims * chunkSize + chunkSize;
      LiveSlots(old(cur), end, chunkSize);
      claims := claims + 1;
    }

    /** The processing loop, outside the lock: call the body for every slot
        that is not end, and report whether end was seen. */
    method Process(threadIndex: nat, start: nat, chunk: array<int>) returns (calls: seq<Call>, done: bool)
      ensures calls == ChunkCalls(threadIndex, start, chunk[..], end)
      ensures done <==> end in chunk[..]
    {
      calls := [];
      done := false;
      var offset := 0;
      while offset < chunk.Length
        invariant 0 <= offset <= chunk.Length
        invariant calls == ChunkCalls(threadIndex, start, chunk[..offset], end)
        invariant done <==> end in chunk[..offset]
      {
        assert chunk[..offset + 1][..offset] == chunk[..offset];
        if chunk[offset] == end {
          done := true;
        } else {
          calls := calls + [Call(chunk[offset], IterationContext(threadIndex, start + offset))];
        }
        offset := offset + 1;
      }
      assert chunk[..] == chunk[..chunk.Length];
    }

    /** One pass of a worker's loop: claim a chunk, then process it. The worker
        is done when the chunk held end, which happens exactly when the chunk
        reached past the last position. */
    method Step(threadIndex: nat) returns (calls: seq<Call>, done: bool)
      requires Valid()
      modifies this
      ensures Valid() && claims == old(claims) + 1
      ensures cur == Min(old(cur) + chunkSize, end)
      ensures calls == PositionCalls(threadIndex, begin, old(cur), cur)
      ensures done <==> old(cur) + chunkSize > end
    {
      var start, chunk := Claim();
      calls, done := Process(threadIndex, start, chunk);
      ChunkCallsOfClaim(threadIndex, begin, old(cur), end, chunkSize, start);
      ClaimShape(old(cur), end, chunkSize);
    }

    /** A worker running alone until it sees end: it visits every remaining
        position, in order, each with its distance from begin. */
    method Routine(threadIndex: nat) returns (calls: seq<Call>)
      requires Valid()
      modifies this
      ensures Valid() && cur == end
      ensures calls == PositionCalls(threadIndex, begin, old(cur), end)
    {
      calls := [];
      var done := false;
      while !done
        invariant Valid() && old(cur) <= cur
        invariant calls == PositionCalls(threadIndex, begin, old(cur), cur)
        invariant done ==> cur == end
        decreases end - cur, if done then 0 else 1
      {
        ghost var before := cur;
        var more, d := Step(threadIndex);
        PositionCallsAppend(threadIndex, begin, old(cur), before, cur);
        calls := calls + more;
        done := d;
      }
    }

    /** All workers of the pool under one interleaving of their claims. The
        operating system's choice of which worker claims next is the input
        order (entries naming no worker, or a finished one, are skipped);
        afterwards every worker still running runs to its end, as the join
        waits for it. Whatever the order, the positions are visited in claim
        order, each exactly once, each with its distance from begin. */
    method RunWorkers(order: seq<nat>) returns (log: seq<Call>)
      requires Valid()
      modifies this
      ensures Valid() && cur == end
      ensures InOrder(log, begin, old(cur), end, numThreads)
    {
      var done := seq(numThreads, _ => false);
      log := [];
      var i := 0;
      while i < |order|
        invariant Valid() && old(cur) <= cur
        invariant |done| == numThreads
        invariant forall w :: 0 <= w < numThreads && done[w] ==> cur == end
        invariant InOrder(log, begin, old(cur), cur, numThreads)
      {
        var w := order[i];
        if w < numThreads && !done[w] {
          var calls, d := Step(w);
          log := log + calls;
          done := done[w := d];
        }
        i := i + 1;
      }
      var w := 0;
      while w < numThreads
        invariant 0 <= w <= numThreads
        invariant Valid() && old(cur) <= cur
        invariant |done| == numThreads
        invariant forall v :: 0 <= v < numThreads && done[v] ==> cur == end
        invariant forall v :: 0 <= v < w ==> done[v]
        invariant InOrder(log, begin, old(cur), cur, numThreads)
      {
        if !done[w] {
          var calls := Routine(w);
          log := log + calls;
          done := done[w := true];
        }
        w := w + 1;
      }
      assert done[0];
    }
  }
}
