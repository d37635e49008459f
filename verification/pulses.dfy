/** The pulse tally shared by the interrupt handler and the main loop
    (`interruptCounter` and `counter_callback` in all three scripts). */
module Pulses {

  function Sum(s: seq<nat>): nat {
    if s == [] then 0 else Sum(s[..|s| - 1]) + s[|s| - 1]
  }

  lemma SumAppend(s: seq<nat>, x: nat)
    ensures Sum(s + [x]) == Sum(s) + x
  {
    assert (s + [x])[..|s|] == s;
  }

  /** The counter. Ghost bookkeeping records every pulse ever seen and every
      value handed out by a drain, so that Valid() states that no pulse is
      lost or counted twice: all pulses are either drained or still pending. */
  class PulseCounter {
    var count: nat
    ghost var total: nat
    ghost var drains: seq<nat>

    ghost predicate Valid()
      reads this
    {
      total == Sum(drains) + count
    }

    constructor ()
      ensures Valid() && count == 0 && total == 0 && drains == []
    {
      count, total, drains := 0, 0, [];
    }

    /** The falling-edge callback: one more pulse, nothing else changes. */
    method Pulse()
      requires Valid()
      modifies this
      ensures Valid()
      ensures count == old(count) + 1 && total == old(total) + 1 && drains == old(drains)
    {
      count := count + 1;
      total := total + 1;
    }

    /** Reads the pending pulses and resets the tally to zero. */
    method Drain() returns (n: nat)
      requires Valid()
      modifies this
      ensures Valid()
      ensures n == old(count) && count == 0
      ensures total == old(total) && drains == old(drains) + [n]
    {
      n := count;
      ghost var after := drains + [n];
      SumAppend(drains, n);
      assert Sum(after) == total;
      drains := after;
      count := 0;
    }
  }
}
