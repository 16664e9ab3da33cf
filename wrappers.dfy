/** The JavaScript values `null` and `undefined` of the application, as an option type. */
module Wrappers {

  datatype Option<+T> = None | Some(value: T)

  /** JavaScript truthiness of a `string | null` value: neither null nor the empty string. */
  predicate Truthy(v: Option<string>) {
    v.Some? && v.value != ""
  }
}
