/** Values that cross the HTTP boundary of the blog API: the decoded JSON
    request body a route reads and the status it answers with. */
module Values {

  datatype Option<+T> = None | Some(value: T)

  /** A JSON value inside a request object, as far as the routes look at it. */
  datatype Json = Null | Str(s: string)

  /** A decoded JSON object, `request.get_json()` when the body is an object. */
  type Body = map<string, Json>

  /** The outcome of a route. */
  datatype Status = Ok | Created | BadRequest | NotFound | ServerError {
    /** The HTTP status code the route sends. */
    function Code(): nat {
      match this
      case Ok => 200
      case Created => 201
      case BadRequest => 400
      case NotFound => 404
      case ServerError => 500
    }
  }

  /** `not data`: no JSON object at all, or an empty one. */
  predicate Missing(request: Option<Body>) {
    request.None? || request.value == map[]
  }

  /** `data.get(key)` is truthy: the key is there and holds a non-empty string. */
  predicate Truthy(body: Body, key: string) {
    key in body && body[key].Str? && body[key].s != ""
  }

  /** `data.get(key)` for a nullable text column: None when absent or null. */
  function OptionalText(body: Body, key: string): Option<string> {
    if key in body && body[key].Str? then Some(body[key].s) else None
  }

  /** `data.get(key)` is None exactly for an absent key or a JSON null, and
      otherwise the string the body holds. */
  lemma OptionalTextIff(body: Body, key: string)
    ensures OptionalText(body, key).None? <==> key !in body || body[key].Null?
    ensures OptionalText(body, key).Some? ==> body[key] == Str(OptionalText(body, key).value)
  {
  }

  /** A key is truthy exactly when `data.get(key)` is a non-empty string. */
  lemma TruthyIff(body: Body, key: string)
    ensures Truthy(body, key) <==> OptionalText(body, key).Some? && OptionalText(body, key).value != ""
  {
  }

  /** A body with a truthy key is never `not data`, so each route's empty-body
      test refuses nothing that its required-key tests would accept. */
  lemma TruthyIsNotMissing(body: Body, key: string)
    requires Truthy(body, key)
    ensures !Missing(Some(body))
  {
  }
}
