/** Failure-carrying datatypes shared by every module of the model. */
module Wrappers {

  /** An optional value: Java's `null` / `Optional.empty()` becomes `None`. */
  datatype Option<+T> = None | Some(value: T)

  /** The outcome of an operation that returns nothing (a Java `void` method that may throw). */
  datatype Outcome<+E> = Pass | Fail(error: E)

  /** The outcome of an operation that returns a value or throws. */
  datatype Result<+T, +E> = Ok(value: T) | Err(error: E)

  /**
   * A repository's find-by-unique-key: the stored value when the key has one, `None` (Java's
   * `Optional.empty()`) otherwise.
   */
  function Lookup<K, V>(m: map<K, V>, k: K): (r: Option<V>)
    ensures r.Some? <==> k in m
    ensures r.Some? ==> r.value == m[k]
  {
    if k in m then Some(m[k]) else None
  }
}

/** The exceptions the services throw, as distinct caller-visible outcomes. */
module Errors {

  datatype Error =
    | NotFound         // ResourceNotFoundException: spreadsheet, sheet or user does not resolve
    | Unauthorized     // UnauthorizedException: the permission gate refused
    | InvalidArgument  // IllegalArgumentException: granting a permission to the owner
    | InvalidState     // IllegalStateException: deleting the last sheet
    | FormatError      // RuntimeException on import: metadata.json missing
    | DuplicateEntry   // ZipException on export: two archive entries with one name
}
