/** Option and Result types shared by the whole model, and the Python
    exceptions the data-preparation scripts can raise on malformed input. */
module Results {

  datatype Option<+T> = None | Some(value: T)

  /** The Python exceptions the scripts raise. */
  datatype PyError =
    | KeyError           // a missing dictionary key
    | ValueError         // int() of a non-hex string, a negative __len__, an explicit raise
    | IndexError         // an out-of-range numpy or list index
    | ZeroDivisionError  // `//` or `%` by zero
    | AssertionError     // a failed `assert`

  /** The value a Python expression evaluates to, or the exception it raises. */
  datatype Result<+T> = Ok(value: T) | Raise(error: PyError) {
    predicate IsFailure() { Raise? }

    function PropagateFailure<U>(): Result<U>
      requires Raise?
    {
      Raise(error)
    }

    function Extract(): T
      requires Ok?
    {
      value
    }
  }
}
