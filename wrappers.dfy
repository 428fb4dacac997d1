/** Optional values: TypeScript's `T | undefined` and `T | null`. */
module Wrappers {

  datatype Option<+T> = None | Some(value: T) {

    /** JavaScript's nullish coalescing `this ?? other`. */
    function OrElse(other: Option<T>): Option<T> {
      if Some? then this else other
    }

    /** `this ?? fallback` where the fallback is always present. */
    function GetOr(fallback: T): T {
      if Some? then value else fallback
    }
  }
}
