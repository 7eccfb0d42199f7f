/**
 * Failure-compatible result types and the exceptions raised by the job-flow
 * builder. Every operation that can raise in the original returns a `Result`.
 */
module Errors {

  /** The exception classes the builder raises (or lets escape from the
      containers it uses). */
  datatype Error =
    | DuplicatedJobError          // Flow.DuplicatedJobError
    | DuplicatedDependenciesError // Flow.DuplicatedDependenciesError
    | FinishCommandError          // Flow.FinishCommandError
    | MultipleLastJobError        // Project.MultipleLastJobError
    | TypeError                   // wrong object kind, unsupported value type
    | KeyError                    // missing `dependencies` entry or missing key
    | ValueError                  // list.remove of an absent element
    | AttributeError              // append/remove on a `dependencies` value that is not a list
    | GraphError                  // networkx refusing to remove an edge that is not in the graph
    | IOError                     // archive target already exists
    | RuntimeError                // maximum recursion depth exceeded

  datatype Option<+T> = None | Some(value: T)

  datatype Result<+T> = Success(value: T) | Failure(error: Error) {

    predicate IsFailure() {
      Failure?
    }

    function PropagateFailure<U>(): Result<U>
      requires Failure?
    {
      Failure(error)
    }

    function Extract(): T
      requires Success?
    {
      value
    }
  }
}
