/**
 * Helpers shared by every module: optional values (`undefined` / `null` in
 * the source become `None`) and the `startsWith` prefix test on strings.
 */
module Wrappers {

  datatype Option<+T> = None | Some(value: T) {

    /** Returns the value held in `Some`, or `default` when there is none. */
    function GetOr(default: T): T {
      match this
      case Some(v) => v
      case None => default
    }
  }

  /** `s.startsWith(prefix)`. */
  predicate StartsWith(s: string, prefix: string) {
    |prefix| <= |s| && s[..|prefix|] == prefix
  }
}
