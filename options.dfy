/** Optional values and fallible results, shared by the other modules. */
module Options {

  /** A Python `Optional[...]` field: `None` or a value. */
  datatype Option<+T> = None | Some(value: T) {
    predicate IsFailure() { None? }

    function PropagateFailure<U>(): Option<U>
      requires None?
    {
      None
    }

    function Extract(): T
      requires Some?
    {
      value
    }
  }

  /** The outcome of building a pattern: the pattern, or the name of the
      field whose `None` value made the builder raise a `TypeError`. */
  datatype Result<+T> = Ok(value: T) | Err(field: string)
}
