/** Outcomes of a request handler: the errors the rental routes report, and
    the optional fields of a request body. */
module Results {

  /** A request-body field that may be absent (`null` or missing in JSON). */
  datatype Option<+T> = None | Some(value: T) {

    /** The given value when present, `current` otherwise: how a partial
        update treats one field. */
    function GetOr(current: T): (r: T)
      ensures Some? ==> r == value
      ensures None? ==> r == current
    {
      match this
      case Some(v) => v
      case None => current
    }
  }

  /** The failures the rental workflow reports to its caller. `NotFound` is
      the 404 answer, `LimitExceeded` the 400 answer of the rental cap. */
  datatype Error = NotFound | LimitExceeded

  datatype Result<+T> = Ok(value: T) | Err(error: Error)
}
