/** Failure-compatible result types shared by every module of the model.
    The Python code signals failure by raising; each raise the model needs
    becomes an `Error` value. */
module Results {

  /** The exceptions the modelled code can raise. */
  datatype Error =
    | ValueError(message: string)   // raised explicitly by the validators and the loader
    | IndexError                    // `parts[0]` of an empty split
    | TypeError                     // a call with the wrong number of arguments
    | EOFError                      // `input()` with no line left to read
    | ImportError                   // `from m import name` where `m` does not define `name`
    | ReadError(kind: string)       // an exception from `open` or `json.load`, by class name

  datatype Option<+T> = None | Some(value: T)

  datatype Result<+T> = Ok(value: T) | Err(error: Error) {

    predicate IsFailure() {
      Err?
    }

    function PropagateFailure<U>(): Result<U>
      requires Err?
    {
      Err(error)
    }

    function Extract(): T
      requires Ok?
    {
      value
    }
  }
}
