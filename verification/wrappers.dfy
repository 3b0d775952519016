/** Option and Result types shared by the whole model. A `Result` carries
    either the value an operation produced or the exception the original
    program would have raised at that point. */
module Wrappers {

  datatype Option<+T> = None | Some(value: T)

  /** The exceptions the original program can raise on its own inputs. */
  datatype Error =
    /** A dictionary lookup of a label absent from the translation table. */
    | KeyError(key: string)
    /** A `\newlabel` line of the aux file with no `}{`-separated value,
        so that taking its second-to-last segment is out of range. Python's
        `IndexError` carries no such payload: `line` is the model's own
        record of the line the error was raised on. */
    | IndexError(line: string)

  datatype Result<+R> = Success(value: R) | Failure(error: Error)
}
