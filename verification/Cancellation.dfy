/** The shared cancellation latch. */
module Cancellation {

  class CancelToken {
    var cancelled: bool

    constructor ()
      ensures !cancelled
    {
      cancelled := false;
    }

    method Cancel()
      modifies this
      ensures cancelled
    {
      cancelled := true;
    }

    /** Whether a publication may start: the latch is held while it runs, so cancelling comes before it or after it. */
    method MayPublish() returns (ok: bool)
      ensures ok <==> !cancelled
    {
      ok := !cancelled;
    }
  }
}
