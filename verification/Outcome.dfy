/**
 The result of a kernel operation that may stop the machine.  In the kernel a
 failing `assert` and a `panic` both end in `spin`, so nothing runs afterwards:
 `Halt` has no successor state, only the reason.
 */
module Outcome {

  datatype Reason =
    | OutOfMemory      // panic: no free frame
    | SegFault         // panic: an address the process may not touch
    | TableFull        // panic: no free slot in a fixed table
    | AssertFailed     // an assert of the source is false
    | Undefined        // the source would index outside an array
    | WouldSleep         // the task goes to sleep and tries again later

  datatype Result<+T> = Ok(value: T) | Halt(why: Reason) {

    predicate IsFailure() {
      Halt?
    }

    function PropagateFailure<U>(): Result<U>
      requires Halt?
    {
      Halt(why)
    }

    function Extract(): T
      requires Ok?
    {
      value
    }
  }
}
