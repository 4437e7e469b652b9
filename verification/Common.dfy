/** Datatypes and predicates shared by every module. */
module Common {

  datatype Option<+T> = None | Some(value: T)

  datatype Result<+T, +E> = Ok(value: T) | Err(error: E)

  /** What receiving from a gRPC stream may fail with; EOF is the regular end. */
  datatype StreamError = EOF | Failed(code: int)

  ghost predicate NoDuplicates<T>(s: seq<T>) {
    forall i, j :: 0 <= i < j < |s| ==> s[i] != s[j]
  }
}
