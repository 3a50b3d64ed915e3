/** Failure-carrying values shared by the import tool and the web layer. */
module Optional {

  /** Python's `None` or a present value. */
  datatype Option<+T> = None | Some(value: T)

  /** A value, or the message the tool exits with (`SystemExit`) or an HTTP abort. */
  datatype Result<+T> = Ok(value: T) | Fail(reason: string)
}
