/** The slice of the Python runtime the plotting pipeline relies on:
    the exceptions it raises or catches, and a Result type that carries
    either a value or the exception that ended the computation. */
module Runtime {

  /** The exception kinds that reach or leave the modelled functions. */
  datatype PyError =
    | ValueError          // a malformed `lat,occ` line (unpacking or `int()` fails)
    | ZeroDivisionError   // `normalize` of a non-empty histogram whose total is 0
    | UnboundLocalError   // `histo` read before assignment, or `hist_data` never assigned
    | KeyError            // a missing dictionary key
    | IndexError          // `list(...)[0]` of an empty dictionary view
    | RuntimeError        // an inconsistent pair of options given to `plot`

  datatype Option<+T> = None | Some(value: T)

  datatype Result<+T> = Ok(value: T) | Err(error: PyError) {
    predicate IsFailure() { Err? }

    function PropagateFailure<U>(): Result<U>
      requires Err?
    {
      Err(error)
    }

    function Extract(): T
      requires Ok?
    {
      value
    }
  }
}
