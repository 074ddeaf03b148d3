/** Optional values and error-carrying results, the model's stand-ins for Go's
    nil pointers and `(value, error)` pairs. An error is its message text. */
module Results {

  datatype Option<+T> = None | Some(value: T) {

    /** The value if present, else `default`: a sparse update's "overwrite the
        stored field only when the request supplies one". */
    function GetOr(default: T): (r: T)
      ensures Some? ==> r == value
      ensures None? ==> r == default
    {
      if Some? then value else default
    }

    /** This option if present, else `other`: overwriting a nullable field. */
    function Or(other: Option<T>): (r: Option<T>)
      ensures Some? ==> r == this
      ensures None? ==> r == other
    {
      if Some? then this else other
    }
  }

  datatype Result<+T> = Ok(value: T) | Err(msg: string)
}
