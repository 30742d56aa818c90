/** Optional values and the Python exceptions the modelled code can raise. */
module Results {

  datatype Option<+T> = None | Some(value: T)

  /** The exception kinds reachable in the modelled code paths. */
  datatype Fault =
    | IndexError   // a list index outside the list
    | TypeError    // iterating or subscripting a value that is not a list of records

  /** The outcome of a Python call: a value, or the exception it raises. */
  datatype Result<+T> = Ok(value: T) | Err(fault: Fault)
}
