/** Shared vocabulary of the handlers: optional values, identifiers, responses. */
module Common {

  datatype Option<T> = None | Some(value: T)

  /** A document identifier exactly as a request carries it. */
  type Id = string

  /** What a mutating handler answers: an HTTP status code and the reason it gives. */
  datatype Response<R> = Response(code: int, reason: R)

  /** What a read handler answers: 200 with a body, or an error status and its reason. */
  datatype Reply<R, T> = Found(value: T) | Refused(code: int, reason: R)

  /** JavaScript truthiness of a string field: an absent field and "" are both falsy. */
  predicate Given(s: string) {
    s != ""
  }

  predicate IsHexDigit(c: char) {
    '0' <= c <= '9' || 'a' <= c <= 'f' || 'A' <= c <= 'F'
  }

  /**
   * The object-id syntax check: a 24-digit hexadecimal string. The same test
   * decides whether a lookup by id can cast its argument or fails with a cast error.
   */
  predicate ValidId(s: string) {
    |s| == 24 && forall i :: 0 <= i < |s| ==> IsHexDigit(s[i])
  }
}
