/** The slot that retains a decoded value while the output is short. */
module PendingSlot {
  import opened Basics
  import opened Converting

  class PendingValueSlot<V> {
    var value: Option<PendingValue<V>>

    constructor ()
      ensures value == None
    {
      value := None;
    }

    method Put(pending: PendingValue<V>)
      modifies this
      ensures value == Some(pending)
    {
      value := Some(pending);
    }

    /** Empties the slot. */
    method Take() returns (taken: Option<PendingValue<V>>)
      modifies this
      ensures taken == old(value) && value == None
    {
      taken := value;
      value := None;
    }

    method Clear()
      modifies this
      ensures value == None
    {
      value := None;
    }
  }
}
