/** What the three pool constructors share: the context handed to the loop
    body, the trace of body invocations, and the defaulting of the worker count. */
module Pool {
  import Schedules

  /** Handed to the loop body with every element: the worker running it and the
      element's global index (its distance from the start of the range). */
  datatype IterationContext = IterationContext(threadIndex: nat, index: nat)

  /** One invocation of the loop body: the cursor it dereferenced, as an integer
      position, and the context it received. */
  datatype Call = Call(element: int, ctx: IterationContext)

  function Min(a: int, b: int): (m: int)
  {
    if a <= b then a else b
  }

  /** A requested thread count of 0 means the default count. */
  function ResolveThreads(requested: nat, hardwareConcurrency: nat): (t: nat)
    ensures t >= 1
    ensures requested != 0 ==> t == requested
    ensures requested == 0 ==> t == Schedules.DefaultNumThreads(hardwareConcurrency)
  {
    if requested != 0 then requested else Schedules.DefaultNumThreads(hardwareConcurrency)
  }

  /** The numbers 0 .. n-1 in increasing order. */
  function Range(n: nat): (s: seq<nat>)
    ensures |s| == n
    ensures forall j :: 0 <= j < n ==> s[j] == j
  {
    if n == 0 then [] else Range(n - 1) + [n - 1]
  }

  /** How many times x occurs in s. */
  function Occurrences(s: seq<nat>, x: nat): (n: nat)
  {
    if s == [] then 0 else Occurrences(s[..|s| - 1], x) + (if s[|s| - 1] == x then 1 else 0)
  }

  lemma {:induction false} OccurrencesAppend(a: seq<nat>, b: seq<nat>, x: nat)
    ensures Occurrences(a + b, x) == Occurrences(a, x) + Occurrences(b, x)
    decreases |b|
  {
    if b == [] {
      assert a + b == a;
    } else {
      var b' := b[..|b| - 1];
      OccurrencesAppend(a, b', x);
      assert (a + b)[..|a + b| - 1] == a + b';
      assert (a + b)[|a + b| - 1] == b[|b| - 1];
    }
  }

  lemma {:induction false} OccursIn(s: seq<nat>, x: nat)
    ensures x in s <==> Occurrences(s, x) > 0
  {
    if s != [] {
      OccursIn(s[..|s| - 1], x);
      assert s == s[..|s| - 1] + [s[|s| - 1]];
    }
  }

  /** Each number below n occurs in Range(n) exactly once, and nothing else does. */
  lemma {:induction false} RangeOccurrences(n: nat, x: nat)
    ensures Occurrences(Range(n), x) == if x < n then 1 else 0
  {
    if n > 0 {
      RangeOccurrences(n - 1, x);
      assert Range(n)[..n - 1] == Range(n - 1);
    }
  }

  /** The calls of a walk over the positions from..to-1, all by one worker,
      each reporting its distance from begin as its global index. */
  function PositionCalls(w: nat, begin: int, from: int, to: int): (calls: seq<Call>)
    requires begin <= from <= to
    ensures |calls| == to - from
    ensures forall j :: 0 <= j < |calls| ==>
      calls[j] == Call(from + j, IterationContext(w, from + j - begin))
  {
    seq(to - from, j requires 0 <= j < to - from => Call(from + j, IterationContext(w, from + j - begin)))
  }
}
