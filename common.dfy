/** Small value types shared by the modules of the model. */
module Common {

  /** A value that may be missing: Python's `None` or a present value. */
  datatype Option<T> = None | Some(value: T)

  /** The exceptions the modelled operations raise, by the condition that raises them. */
  datatype Error =
    | CounterCorrupt                 // `int(...)` on the counter text raised ValueError
    | DocumentCorrupt(name: string)  // `json.load` raised JSONDecodeError on this document
    | NoCommentList(taskId: string)  // the task has no "comments" list to append to

  /** Either the value an operation returns or the exception it raises. */
  datatype Result<T> = Ok(value: T) | Err(error: Error)

  /** `a` is `b` with some elements left out, the rest in the same order. */
  predicate IsSubsequence<T(==)>(a: seq<T>, b: seq<T>)
  {
    |a| == 0 ||
    (|b| > 0 &&
     ((a[|a| - 1] == b[|b| - 1] && IsSubsequence(a[..|a| - 1], b[..|b| - 1])) ||
      IsSubsequence(a, b[..|b| - 1])))
  }
}
