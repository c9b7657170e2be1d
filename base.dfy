/** Small failure-carrying datatypes and sequence and character helpers shared by the other modules. */
module Base {

  /** A value that may be absent: JavaScript's `undefined` next to a value. */
  datatype Option<+T> = None | Some(value: T)

  /** The result of an operation that either completes or throws an error `E`. */
  datatype Outcome<+E> = Pass | Fail(error: E)

  /** A value of type `T`, or the error `E` that was thrown instead of returning it. */
  datatype Result<+T, +E> = Ok(value: T) | Err(error: E)

  /** No element stands twice in `s`. */
  predicate Distinct<T(==)>(s: seq<T>) {
    forall i, j :: 0 <= i < j < |s| ==> s[i] != s[j]
  }

  predicate IsDigit(c: char) {
    '0' <= c <= '9'
  }

  /** The decimal digit character of `d`. */
  function Digit(d: nat): (c: char)
    requires d < 10
    ensures IsDigit(c)
  {
    (('0' as int) + d) as char
  }
}
