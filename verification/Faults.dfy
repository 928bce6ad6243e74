/**
 Failures that the code cannot foresee. Whatever may fail asks here whether it does, so that a
 contract can say that a failure is reported only when there was one.
 */
module FaultInjection {

  class Faults {
    ghost var count: nat

    constructor ()
      ensures count == 0
    {
      count := 0;
    }

    method Trips() returns (tripped: bool)
      modifies this
      ensures count == old(count) + if tripped then 1 else 0
    {
      tripped := *;
      if tripped {
        count := count + 1;
      }
    }
  }
}
