/** What a step of the proxy can end in. A Rust panic ends the connection's thread, and the whole
    proxy where it is built to abort on panic (Cargo.toml:29), so it is an outcome of its own, tagged
    with what was violated. */
module Outcomes {

  datatype Option<+T> = None | Some(value: T)

  datatype Fault =
    | NoCommand            // the response accumulator ran without a stored command
    | NoHandshakeResponse  // the client's handshake response was unwrapped while missing
    | Malformed            // an index, slice, assertion or text conversion failed on the bytes
    | OutOfOrder           // two packets of one read are not consecutive
    | WrongPhase           // a packet arrived in a phase that consumes none
    | Unsupported          // an explicit panic on input the proxy does not handle
    | StackOverflow        // unbounded recursion

  datatype Outcome<+T> = Done(value: T) | Panic(fault: Fault) {
    predicate IsFailure() {
      Panic?
    }

    function PropagateFailure<U>(): Outcome<U>
      requires Panic?
    {
      Panic(fault)
    }

    function Extract(): T
      requires Done?
    {
      value
    }
  }

  /** Rust's `unwrap` on an optional value. */
  function Unwrap<T>(o: Option<T>, fault: Fault): Outcome<T> {
    match o
    case None => Panic(fault)
    case Some(v) => Done(v)
  }
}
