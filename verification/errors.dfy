/** Failure-compatible wrappers and the exceptions the robot model can raise. */
module Errors {

  datatype Option<+T> = None | Some(value: T)

  /** The exceptions of the robot model. Construction raises the two naming
      conflicts, lookups raise the unknown-name errors, the chain walk raises
      `Topology` when it runs out of fuel, and the solver raises the rest. */
  datatype Error =
    | ActuatorConflict(group: string, keys: set<string>)
    | VirtualConflict(group: string, keys: set<string>)
    | GroupConflict(names: set<string>)
    | UnknownGroup(name: string)
    | UnknownActuators(keys: set<string>)
    | UnknownVirtual(key: string)
    | Topology
    | MissingState(trafo: string, param: string)
    | SolverIndex(index: nat)
    | Arity(got: int, expected: int)

  /** Either a value or the exception that was raised instead. */
  datatype Result<+T> = Ok(value: T) | Err(error: Error) {

    predicate IsFailure() {
      Err?
    }

    function PropagateFailure<U>(): Result<U>
      requires Err?
    {
      Err(error)
    }

    function Extract(): T
      requires Ok?
    {
      value
    }
  }
}
