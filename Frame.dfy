// Per-virtual-page usage record consulted by the replacement policies.

module Frames {

  /** The value held by a `Frame` at one instant: the step at which the page was
      last loaded, its next use (computed for the optimal policy), its last use
      (LRU) and its reference count (LFU). -1 stands for "unset". */
  datatype Meta = Meta(inserted: int, nextUse: int, lastUse: int, timesUsed: int)

  /** A freshly constructed frame. */
  const FreshMeta: Meta := Meta(-1, -1, -1, 0)

  class Frame {
    var inserted: int
    var nextUse: int
    var lastUse: int
    var timesUsed: int

    /** The record as a value. */
    ghost function Value(): Meta
      reads this
    {
      Meta(inserted, nextUse, lastUse, timesUsed)
    }

    constructor ()
      ensures Value() == FreshMeta
      ensures GetInserted() == -1 && GetNextUse() == -1 && GetLastUse() == -1 && GetTimesUsed() == 0
    {
      inserted := -1;
      nextUse := -1;
      lastUse := -1;
      timesUsed := 0;
    }

    method SetInserted(n: int)
      modifies this
      ensures GetInserted() == n
      ensures Value() == old(Value()).(inserted := n)
    {
      inserted := n;
    }

    function GetInserted(): (n: int)
      reads this
      ensures n == Value().inserted
    {
      inserted
    }

    method SetNextUse(n: int)
      modifies this
      ensures GetNextUse() == n
      ensures Value() == old(Value()).(nextUse := n)
    {
      nextUse := n;
    }

    function GetNextUse(): (n: int)
      reads this
      ensures n == Value().nextUse
    {
      nextUse
    }

    method SetLastUse(n: int)
      modifies this
      ensures GetLastUse() == n
      ensures Value() == old(Value()).(lastUse := n)
    {
      lastUse := n;
    }

    function GetLastUse(): (n: int)
      reads this
      ensures n == Value().lastUse
    {
      lastUse
    }

    method IncrementTimesUsed()
      modifies this
      ensures GetTimesUsed() == old(GetTimesUsed()) + 1
      ensures Value() == old(Value()).(timesUsed := old(timesUsed) + 1)
    {
      timesUsed := timesUsed + 1;
    }

    function GetTimesUsed(): (n: int)
      reads this
      ensures n == Value().timesUsed
    {
      timesUsed
    }
  }
}
