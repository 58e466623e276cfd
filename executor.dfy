/** The execution backend the kernel hands ready tasks to.
    The real executor runs the payload asynchronously and returns a future;
    here it only records what it was given and answers with a handle that
    no earlier submission received (its position in the launch log). */
module Executors {

  /** Opaque reference to the callable payload of a task. */
  type Executable = nat

  /** Opaque handle for the executor-side future of one launched payload. */
  type ExecHandle = nat

  class Executor {
    /** Every payload submitted so far, in submission order. */
    var launched: seq<Executable>

    /** A handle is issued once the payload it stands for has been submitted. */
    predicate Issued(h: ExecHandle)
      reads this
    {
      h < |launched|
    }

    constructor ()
      ensures launched == []
    {
      launched := [];
    }

    /** Accepts one payload and returns a handle no earlier call returned. */
    method Submit(executable: Executable) returns (h: ExecHandle)
      modifies this
      ensures launched == old(launched) + [executable]
      ensures h == |old(launched)|
      ensures !old(Issued(h)) && Issued(h)
    {
      h := |launched|;
      launched := launched + [executable];
    }
  }
}
