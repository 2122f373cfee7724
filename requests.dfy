/** Values shared by every route: optional values, the keys of a JSON request
    body, and the error outcomes a route can answer with. */
module Requests {

  datatype Option<+T> = None | Some(value: T)

  /** One key of a JSON object body: missing from the object, present with
      the value `null`, or present with a value. */
  datatype Field<+T> = Absent | Null | Given(value: T)

  /** Python truthiness of `data.get(k)` for a string key: a missing key,
      `null` and the empty string are all falsy. */
  predicate Truthy(f: Field<string>)
  {
    f.Given? && f.value != ""
  }

  /** `data.get(k, default)`: the default when the key is missing, `None`
      when it is present with `null`, the value otherwise. */
  function GetOr<T>(f: Field<T>, default: T): (stored: Option<T>)
  {
    match f
    case Absent => Some(default)
    case Null => None
    case Given(v) => Some(v)
  }

  /** The value stored for a present key: `null` becomes a SQL NULL. */
  function Nullable<T>(f: Field<T>): (stored: Option<T>)
    requires !f.Absent?
  {
    if f.Given? then Some(f.value) else None
  }

  /** The error answers of the routes, one per HTTP error status:
      400 "Missing fields", 409 "User already exists", 401 "Invalid
      credentials", 404 "User not found"; IntegrityViolation is a write the
      database refuses because it breaks a column declaration, ServerCrash an
      exception the handler does not catch (both answer 500). */
  datatype Error =
    | MissingFields
    | AlreadyExists
    | InvalidCredentials
    | NotFound
    | IntegrityViolation
    | ServerCrash

  datatype Result<+T> = Ok(value: T) | Err(error: Error)
}
