/** Option and Result types, and the exceptions and fatal errors of the cache library. */
module Wrappers {

  datatype Option<+T> = None | Some(value: T)

  /** Why the PHP program would stop with a fatal error (an uncaught `Error`). */
  datatype Fault =
    | NotAnEntry          // `CacheData::unserialize` gave `false` and a method was called on it
    | NoOpenScope         // `end()` with no open start()/end() scope: `$this->loopdata[0]` is unset
    | NotCallable         // a value that is not callable passed where `callable` is declared
    | UnsupportedOperand  // `+=` applied to an array
    | NoKey               // `storeData` of an entry whose key was never set
    | NotStringable       // a `CacheKey` object converted to a string (it has no `__toString`)
    | DepthExhausted      // expansion nested deeper than the interpreter's recursion can go

  /** The exceptions raised by the library, plus fatal errors. */
  datatype Error =
    | NotCached        // NotCachedException: a miss, recovered by the callers that expect it
    | KeyClash         // CacheKeyClashException: a scope reopened inside itself
    | InvalidData      // CacheInvalidDataException: malformed key or entry
    | Fatal(fault: Fault)

  datatype Result<+T> = Ok(value: T) | Err(error: Error) {
    predicate IsFailure() {
      Err?
    }

    function PropagateFailure<U>(): Result<U>
      requires Err?
    {
      Err(error)
    }

    function Extract(): T
      requires Ok?
    {
      value
    }
  }
}
