/** `TextUtils.isEmpty`, which the lookups and the factory use on nullable text. */
module TextUtils {
  import opened Wrappers

  /** Null (`None`) or the empty string. */
  predicate IsEmpty(s: Option<string>) {
    s.None? || s.value == ""
  }
}
