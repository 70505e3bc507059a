/** Vocabulary shared by every layer: optional values, identifiers, the
    outcomes a handler sends back, and the library functions the code calls
    but whose behaviour lives outside it. */
module Common {

  /** MongoDB document ids, carried as their string form. */
  type Id = string

  datatype Option<+T> = None | Some(value: T)

  /** JavaScript truthiness of an optional string: present and non-empty
      (`undefined` and `""` are both falsy). */
  predicate Truthy(s: Option<string>) {
    s.Some? && s.value != ""
  }

  /** `a || b` on optional strings. */
  function Or(a: Option<string>, b: string): (r: string)
    ensures Truthy(a) ==> r == a.value
    ensures !Truthy(a) ==> r == b
  {
    if Truthy(a) then a.value else b
  }

  /** The error statuses the handlers send: 400, 401, 403, 404, 409 and 500. */
  datatype Failure = BadRequest | Unauthorized | Forbidden | NotFound | Conflict | ServerError

  /** What a handler sends: a success status with its payload, or an error
      status with the `message` of the JSON body. */
  datatype Response<+T> = Ok(status: int, body: T) | Err(failure: Failure, message: string)

  /** What an Express middleware does: call `next()` once, or answer and stop. */
  datatype Verdict = Next | Halt(failure: Failure, message: string) {
    /** Run this middleware and then, if it called `next()`, the rest of the chain. */
    function Then(rest: Verdict): (v: Verdict)
      ensures v.Next? <==> Next? && rest.Next?
      ensures Halt? ==> v == this
      ensures Next? ==> v == rest
    {
      if Halt? then this else rest
    }
  }

  /** How a promise settles: resolved with a value or rejected with an error. */
  datatype Settled<+T> = Resolved(value: T) | Rejected(reason: string)

  /** The message Express's default error handler stands for when an async
      handler's promise rejects (asyncHandler passes the error to `next`). */
  const InternalError := "Internal Server Error"

  /** Library behaviour the code relies on without defining it:
      Mongoose's `Types.ObjectId.isValid`, bcrypt's `hash(p, 10)` and `compare`. */
  datatype Platform = Platform(
    isValidId: Id -> bool,
    hash: string -> string,
    compare: (string, string) -> bool)

  /** The one fact about bcrypt the code depends on: a password compares true
      against its own hash. */
  ghost predicate HashSound(p: Platform) {
    forall s :: p.compare(s, p.hash(s))
  }
}
