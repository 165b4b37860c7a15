/**
  Small shared vocabulary: an optional value (the model of Rust's `Option`
  and of "environment variable set or not") and prefix/suffix predicates on
  strings.
 */
module Base {

  /** A value that may be absent. */
  datatype Option<+T> = None | Some(value: T) {

    /** The held value, or `default` when there is none (Rust's `unwrap_or`). */
    function GetOr(default: T): T {
      match this
      case Some(v) => v
      case None => default
    }
  }

  /** True iff `prefix` is an initial segment of `s`. */
  predicate StartsWith(s: string, prefix: string) {
    |prefix| <= |s| && s[..|prefix|] == prefix
  }

  /** True iff `suffix` is a final segment of `s`. */
  predicate EndsWith(s: string, suffix: string) {
    |suffix| <= |s| && s[|s| - |suffix|..] == suffix
  }
}
