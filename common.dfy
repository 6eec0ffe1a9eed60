/** Shared vocabulary: identifiers, optional values, the error replies of the
    HTTP handlers and the length of a day in milliseconds. */
module Common {

  /** A MongoDB ObjectId, abstracted to a natural number. */
  type Id = nat

  /** 1000 * 60 * 60 * 24: the day length both day counters divide by. */
  const DayMs: int := 86400000

  datatype Option<+T> = None | Some(value: T)

  function OrElse<T>(o: Option<T>, default: T): T
  {
    match o
    case Some(v) => v
    case None => default
  }

  /** The failing replies of the handlers: 400, 404 and 500 with their message. */
  datatype Error =
    | BadRequest(message: string)
    | NotFound(message: string)
    | ServerError(message: string)

  datatype Result<+T> = Ok(value: T) | Err(error: Error)

  /** JavaScript truthiness of an optional request string: present and non-empty. */
  predicate TruthyString(s: Option<string>)
  {
    s.Some? && s.value != ""
  }

  /** JavaScript truthiness of an optional number: present and non-zero. */
  predicate TruthyInt(n: Option<int>)
  {
    n.Some? && n.value != 0
  }

  predicate TruthyReal(x: Option<real>)
  {
    x.Some? && x.value != 0.0
  }
}
