/** Cancellation: a context that some other goroutine may cancel at any time, for good. */
module Contexts {
  class Context {
    var done: bool

    constructor ()
      ensures !done
    {
      done := false;
    }

    /** Whether the context is cancelled by now. */
    method IsDone() returns (cancelled: bool)
      modifies this
      ensures cancelled == done && (old(done) ==> done)
    {
      var cancel: bool := *;
      done := done || cancel;
      cancelled := done;
    }
  }
}
