/** The error kinds of the core, the three ways a core call can end, and one
    fact about text shared by the other modules. */
module Results {

  /** The variants of the crate's error enum. `JSONStringify` carries no message:
      every place that builds it does so without one. */
  datatype Error =
    | JSONParsing(diagnostic: string)
    | JSONStringify
    | NotImplemented

  /** A call returns a value, returns an error, or panics (an `.unwrap()` on a
      missing value aborts the thread instead of returning). */
  datatype Result<T> = Ok(value: T) | Err(error: Error) | Panic

  datatype Option<T> = None | Some(value: T)

  /** Concatenation of texts regroups freely. */
  lemma Associative(a: string, b: string, c: string)
    ensures a + (b + c) == (a + b) + c
  {
  }
}
