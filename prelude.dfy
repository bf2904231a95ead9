/** Rust's `Option` and `Result`, the shapes every fallible step of the evaluator returns,
    and `str::starts_with`, which is how callers tell its error messages apart. */
module Prelude {

  datatype Option<+T> = None | Some(value: T)

  datatype Result<+T, +E> = Ok(value: T) | Err(error: E)

  /** `s.starts_with(prefix)` */
  predicate HasPrefix(s: string, prefix: string)
  {
    |prefix| <= |s| && s[..|prefix|] == prefix
  }
}
