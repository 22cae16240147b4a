/** The integer cursor that lets a parallel loop run over a plain range of
    numbers: a random-access iterator whose value is the number itself. */
module SequenceIter {

  class SequenceIterator {
    var val: int

    /** The default cursor stands at 0. */
    constructor Default()
      ensures val == 0
    {
      val := 0;
    }

    constructor (v: int)
      ensures val == v
    {
      val := v;
    }

    /** Dereferencing yields the stored number. */
    function Deref(): (v: int)
      reads this
      ensures v == val
    {
      val
    }

    function Less(other: SequenceIterator): (b: bool)
      reads this, other
      ensures b <==> Distance(other) < 0
    {
      val < other.val
    }

    function Greater(other: SequenceIterator): (b: bool)
      reads this, other
      ensures b <==> Distance(other) > 0
    {
      val > other.val
    }

    function LessEq(other: SequenceIterator): (b: bool)
      reads this, other
      ensures b <==> Distance(other) <= 0
    {
      val <= other.val
    }

    function GreaterEq(other: SequenceIterator): (b: bool)
      reads this, other
      ensures b <==> Distance(other) >= 0
    {
      val >= other.val
    }

    function Equal(other: SequenceIterator): (b: bool)
      reads this, other
      ensures b <==> Distance(other) == 0
    {
      val == other.val
    }

    function NotEqual(other: SequenceIterator): (b: bool)
      reads this, other
      ensures b <==> Distance(other) != 0
    {
      val != other.val
    }

    /** The signed number of steps from other to this cursor. */
    function Distance(other: SequenceIterator): (d: int)
      reads this, other
      ensures other.val + d == val
    {
      val - other.val
    }

    /** Prefix increment: advances this cursor but, unlike a standard iterator,
        returns a copy holding the value from before the step. */
    method PreIncrement() returns (ret: SequenceIterator)
      modifies this
      ensures fresh(ret)
      ensures ret.val == old(val) && val == old(val) + 1
      ensures Distance(ret) == 1
    {
      ret := new SequenceIterator(val);
      val := val + 1;
    }

    /** Prefix decrement: steps back and returns the value from before the step. */
    method PreDecrement() returns (ret: SequenceIterator)
      modifies this
      ensures fresh(ret)
      ensures ret.val == old(val) && val == old(val) - 1
      ensures ret.Distance(this) == 1
    {
      ret := new SequenceIterator(val);
      val := val - 1;
    }

    /** Postfix increment returns nothing. */
    method PostIncrement()
      modifies this
      ensures val == old(val) + 1
    {
      val := val + 1;
    }

    /** Postfix decrement returns nothing. */
    method PostDecrement()
      modifies this
      ensures val == old(val) - 1
    {
      val := val - 1;
    }

    /** Compound addition moves this cursor and returns the cursor itself. */
    method AddAssign(i: int) returns (self: SequenceIterator)
      modifies this
      ensures self == this
      ensures val == old(val) + i
    {
      val := val + i;
      self := this;
    }

    /** Compound subtraction moves this cursor and returns the cursor itself. */
    method SubAssign(i: int) returns (self: SequenceIterator)
      modifies this
      ensures self == this
      ensures val == old(val) - i
    {
      val := val - i;
      self := this;
    }

    /** Addition makes a new cursor i steps ahead and leaves this one alone. */
    method Plus(i: int) returns (r: SequenceIterator)
      ensures fresh(r)
      ensures r.Distance(this) == i
    {
      r := new SequenceIterator(val + i);
    }

    /** Subtraction makes a new cursor i steps back and leaves this one alone. */
    method Minus(i: int) returns (r: SequenceIterator)
      ensures fresh(r)
      ensures Distance(r) == i
    {
      r := new SequenceIterator(val - i);
    }
  }

  /** Cursors are totally ordered as their numbers are: exactly one of
      less, equal and greater holds, and the derived comparisons agree. */
  lemma OrderFollowsIntegers(a: SequenceIterator, b: SequenceIterator)
    ensures a.Less(b) <==> a.Deref() < b.Deref()
    ensures a.Equal(b) <==> a.Deref() == b.Deref()
    ensures a.Less(b) || a.Equal(b) || a.Greater(b)
    ensures !(a.Less(b) && a.Equal(b)) && !(a.Less(b) && a.Greater(b)) && !(a.Equal(b) && a.Greater(b))
    ensures a.LessEq(b) <==> a.Less(b) || a.Equal(b)
    ensures a.GreaterEq(b) <==> a.Greater(b) || a.Equal(b)
    ensures a.Greater(b) <==> b.Less(a)
    ensures a.NotEqual(b) <==> !a.Equal(b)
  {
  }

  /** The distance between two cursors is antisymmetric, is zero exactly when
      they are equal, and is positive exactly when the first is ahead. */
  lemma DistanceMatchesOrder(a: SequenceIterator, b: SequenceIterator)
    ensures a.Distance(b) == -b.Distance(a)
    ensures a.Distance(b) == 0 <==> a.Equal(b)
    ensures a.Distance(b) > 0 <==> a.Greater(b)
    ensures a.Distance(b) == a.Deref() - b.Deref()
  {
  }

  /** Distances add up along three cursors. */
  lemma DistanceChains(a: SequenceIterator, b: SequenceIterator, c: SequenceIterator)
    ensures a.Distance(c) == a.Distance(b) + b.Distance(c)
  {
  }

  /** Moving a cursor forward by i and back by i returns it to where it was;
      the copies made by + and - are separate objects. */
  method AddSubRoundTrip(it: SequenceIterator, i: int) returns (ahead: SequenceIterator, back: SequenceIterator)
    modifies it
    ensures fresh(ahead) && fresh(back) && ahead != it && back != it
    ensures ahead.val == old(it.val) + i && back.val == old(it.val)
    ensures ahead.Distance(back) == i
    ensures it.val == old(it.val)
  {
    ahead := it.Plus(i);
    back := ahead.Minus(i);
    assert back.val == it.val;
    var self := it.AddAssign(i);
    assert it.Equal(ahead);
    self := it.SubAssign(i);
  }
}
