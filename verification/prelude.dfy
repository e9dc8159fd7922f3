/** Small shared vocabulary: optional values and JavaScript string truthiness. */
module Prelude {

  /** A value that may be absent (`undefined` / `null` in the application). */
  datatype Option<T> = None | Some(value: T) {

    /** The carried value, or `default` when absent. */
    function GetOr(default: T): T {
      match this
      case Some(v) => v
      case None => default
    }
  }

  /** JavaScript truthiness of a string: only the empty string is falsy. */
  predicate Truthy(s: string) {
    s != ""
  }

  /** Truthiness of an optional string: `undefined` and '' are both falsy. */
  predicate TruthyOpt(o: Option<string>) {
    o.Some? && o.value != ""
  }

  /** `s || fallback` on a string. */
  function OrElse(s: string, fallback: string): string {
    if Truthy(s) then s else fallback
  }

  /** `o || fallback` on an optional string. */
  function OptOrElse(o: Option<string>, fallback: string): string {
    if TruthyOpt(o) then o.value else fallback
  }
}
