/** The timeout flag shared by the walk and its timer. */
module Timeout {

  /** A one-field state machine: created clear, and `Set` is the only
      operation that writes it, so once set it stays set. */
  class TimeoutFlag {
    var flag: bool

    /** A new flag is clear: `is_set` reports false until `Set` runs. */
    constructor ()
      ensures !IsSet()
    {
      flag := false;
    }

    /** Sets the flag; setting it again leaves it set, and from then on
        `is_set` reports true. */
    method Set()
      modifies this
      ensures IsSet()
    {
      flag := true;
    }

    /** Reports the flag without changing it. */
    function IsSet(): (r: bool)
      reads this
      ensures r == flag
    {
      flag
    }
  }
}
