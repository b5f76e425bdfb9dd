/** Shared vocabulary of the restaurant backend model: optional values, handler
    results, the error kinds the handlers answer with, and request fields as
    they arrive in a JSON body. */
module Common {

  datatype Option<+T> = None | Some(value: T) {
    /** The value, or `default` when absent (SQL `COALESCE(x, default)`). */
    function GetOr(default: T): T {
      match this
      case Some(v) => v
      case None => default
    }
  }

  /** How a handler fails. The first three are the answers the handler sets
      itself (HTTP 400, 404 and 409); `Rejected` is a write the database
      refuses (the transaction rolls back and the error goes to the error
      middleware unchanged). */
  datatype Failure = BadRequest | NotFound | Conflict | Rejected

  datatype Result<+T> = Ok(value: T) | Err(error: Failure)

  /** A numeric body field: absent, present but not a number (a string such as
      "abc"), or a number. Money is in integer cents. */
  datatype Numeric = Absent | NotANumber | Num(n: int)

  /** JavaScript truthiness of an optional numeric id: absent and 0 are falsy. */
  predicate Given(x: Option<int>) {
    x.Some? && x.value != 0
  }

  /** `x || null` on an optional id: falsy ids are stored as NULL. */
  function IdOrNull(x: Option<int>): (r: Option<int>)
    ensures r.Some? <==> Given(x)
    ensures r.Some? ==> r == x
  {
    if Given(x) then x else None
  }

  /** `s || null` on an optional text: the empty string is stored as NULL. */
  function TextOrNull(s: Option<string>): (r: Option<string>)
    ensures r.Some? <==> s.Some? && s.value != ""
    ensures r.Some? ==> r == s
  {
    if s.Some? && s.value != "" then s else None
  }
}
