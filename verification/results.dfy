/** Failure-carrying values for the packaging script's model.

    The script signals trouble only by letting a Python exception escape;
    `Error` names which of those exceptions the modelled code can raise,
    and `Result` carries either a value or that error. Exception message
    text is not modelled, only which failure happened. */
module Results {

  /** The exceptions the modelled code of setup.py can raise. */
  datatype Error =
    | NoHeadLine        // `stdout.splitlines()[0]` on empty `git log` output (IndexError)
    | MalformedShowRef  // `_, _2 = _ln.split(' ')` on a line without exactly one space (ValueError)
    | NoVersionValue    // `line[0].split('=')[1]` on a version line without `=` (IndexError)

  datatype Result<T> = Ok(value: T) | Err(error: Error)

  datatype Option<T> = None | Some(value: T)
}
