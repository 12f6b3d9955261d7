/** The ways the delay engine can stop. The Go program aborts the process with
    `panic` in each of these situations; the model returns the panic as a value
    so that contracts can say exactly when it happens. */
module Panics {

  datatype Panic =
    | OffsetTooLarge     // `ringbuffer.read`: the index is still negative after one wrap
    | IndexOutOfRange    // Go runtime bounds check on `buf[idx]` (idx >= len(buf))
    | MemoryOverflowing  // startup: the network delay needs more history than is kept

  /** The value of a Go call that either returns or panics. */
  datatype Result<T> = Ok(value: T) | Err(panic: Panic)

  /** The outcome of a Go call that returns nothing of interest or panics. */
  datatype Outcome = Pass | Fail(panic: Panic)
}
