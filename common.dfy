/** Small building blocks shared by the route modules: optional values, the
    outcome of a store query, handler results, JavaScript truthiness of
    request-body fields and the store's first-match query. */
module Common {

  datatype Option<+T> = None | Some(value: T)

  /** Identifier of a stored document (the string form of a MongoDB ObjectId). */
  type Id = string

  /** What a query through a model object yields: the document, nothing
      (`null`), or an exception thrown before any query ran. */
  datatype Lookup<+T> = Found(value: T) | NotFound | Threw

  /** A value or the HTTP status code a handler answers with instead. */
  datatype Result<+T> = Ok(value: T) | Err(code: nat)

  /** JavaScript truthiness of a request-body string: `undefined` and `""`
      are falsy, every other string is truthy. */
  predicate Truthy(field: Option<string>) {
    field.Some? && field.value != ""
  }

  /** `field || null`: a falsy field is stored as null. */
  function OrNull(field: Option<string>): (r: Option<string>)
    ensures r.None? <==> !Truthy(field)
    ensures r.Some? ==> r == field
  {
    if Truthy(field) then field else None
  }

  /** `findOne`/`findById` over a collection in natural order: the index of
      the first document satisfying the filter, if any. */
  function FindFirst<T>(s: seq<T>, p: T -> bool): (r: Option<nat>)
    ensures r.Some? ==> r.value < |s| && p(s[r.value])
    ensures r.Some? ==> forall j :: 0 <= j < r.value ==> !p(s[j])
    ensures r.None? ==> forall j :: 0 <= j < |s| ==> !p(s[j])
    decreases |s|
  {
    if s == [] then None
    else if p(s[0]) then Some(0)
    else
      match FindFirst(s[1..], p)
      case None => None
      case Some(i) => Some(i + 1)
  }

  /** The document a `findOne` loads: the first one satisfying the filter, if any. */
  function FirstMatch<T>(s: seq<T>, p: T -> bool): (r: Option<T>)
    ensures r.Some? ==> r.value in s && p(r.value)
    ensures r.None? ==> forall x :: x in s ==> !p(x)
  {
    match FindFirst(s, p)
    case Some(i) => Some(s[i])
    case None => None
  }
}
