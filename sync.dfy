/**
 * The synchronisation helpers of src_server/global.hpp and
 * src_net/global.hpp, modelled sequentially: an atomic flag is a boolean
 * and every operation on it is one step.
 */
module Sync {
  /** The two answers of `isAvail_then_lock`. */
  datatype State = NotAvail | AvailButNoMore

  /** The result and new flag of one test-and-set on a flag that was `held`. */
  function TestAndSet(held: bool): (res: (State, bool))
    ensures res.1
    ensures res.0 == AvailButNoMore <==> !held
  {
    if held then (NotAvail, true) else (AvailButNoMore, true)
  }

  /** A second acquisition without a release in between always fails. */
  lemma {:induction false} AcquireExcludes(held: bool)
    ensures TestAndSet(TestAndSet(held).1).0 == NotAvail
    ensures TestAndSet(held).0 == AvailButNoMore ==> TestAndSet(false).0 == AvailButNoMore
  {
    var first := TestAndSet(held);
    assert first.1;
    assert TestAndSet(first.1) == (NotAvail, true);
  }

  /** A test-and-set flag; `flag` is true while somebody holds it. */
  class AtomicFlag {
    var flag: bool

    /** A new flag starts clear. */
    constructor()
      ensures !flag
    {
      flag := false;
    }

    /** Acquire: succeeds exactly when the flag was clear, and leaves it set either way. */
    method IsAvailThenLock() returns (s: State)
      modifies this
      ensures (s, flag) == TestAndSet(old(flag))
    {
      var was := flag;
      flag := true;
      if !was {
        s := AvailButNoMore;
      } else {
        s := NotAvail;
      }
    }

    /** Release: clears the flag. */
    method MakeAvail()
      modifies this
      ensures !flag
    {
      flag := false;
    }
  }

  /** An atomic boolean: reads return the last value stored. */
  class AtomicBool {
    var value: bool

    constructor(init: bool)
      ensures value == init
    {
      value := init;
    }

    /** `operator=`: store. */
    method Store(v: bool)
      modifies this
      ensures value == v
    {
      value := v;
    }

    /** `operator==`: compare the stored value with `v`. */
    method Equals(v: bool) returns (r: bool)
      ensures r <==> value == v
    {
      r := value == v;
    }

    /** `operator bool`: load. */
    method Load() returns (r: bool)
      ensures r == value
    {
      r := value;
    }
  }
}
