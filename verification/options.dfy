/** Nullable values, and the JavaScript notion of a "truthy" nullable string. */
module Options {

  datatype Option<+T> = None | Some(value: T)

  /** A nullable string is truthy in JavaScript when it is present and not empty:
      `null`, `undefined` and `""` are all falsy. */
  predicate Truthy(s: Option<string>) {
    s.Some? && s.value != ""
  }

  /** JavaScript's `s || fallback` on a nullable string. */
  function OrElse(s: Option<string>, fallback: string): string {
    if Truthy(s) then s.value else fallback
  }
}
