/** Success and failure values shared by the hierarchy model. */
module Outcomes {

  datatype Option<+T> = None | Some(value: T)

  /** The errors the modelled operations return. */
  datatype Error =
    | RecordNotFound(id: nat)     // a primary-key lookup found no row
    | LevelExceeded(limit: int)   // "cannot add beyond level <limit>"
    | InvalidActionValue          // ActionType.Scan was handed something other than a uint

  /** The outcome of a lookup, a query or an operation built on them. */
  datatype Result<+T> = Ok(value: T) | Err(error: Error)
}
