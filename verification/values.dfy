/** Optional values and the falsiness rules of JavaScript and Python that the
    bot's code relies on when it chains fallbacks with `||` or tests `if not x`. */
module Values {

  /** A value that may be absent (`undefined`, `null` or `None` in the source). */
  datatype Option<+T> = None | Some(value: T)

  /** A possibly-absent string is truthy when it is present and non-empty:
      both `undefined` and `''` are falsy in JavaScript, `None` and `''` in Python. */
  predicate Truthy(s: Option<string>) {
    s.Some? && s.value != ""
  }

  /** `a || fallback` for a possibly-absent string and a string fallback. */
  function OrElse(a: Option<string>, fallback: string): (r: string)
    ensures Truthy(a) ==> r == a.value
    ensures !Truthy(a) ==> r == fallback
  {
    if Truthy(a) then a.value else fallback
  }
}
