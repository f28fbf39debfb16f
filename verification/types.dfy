/** Small failure-carrying datatypes shared by the whole model. Go reports every
    failure as a plain `error` value next to the result; here the two are folded
    into one datatype. */
module Types {

  datatype Option<+T> = None | Some(value: T)

  /** The failures the service can meet. The Go code passes them on as opaque
      `error` values; only the login failure has a shape of its own. */
  datatype Error =
    | Transport(detail: string)                   // request not sent or body not read
    | Decode(detail: string)                      // body is not the expected JSON
    | LoginRejected(status: string, body: string) // no usable session cookie in the reply
    | PostFailed(detail: string)                  // the chat webhook refused a message

  datatype Result<+T> = Ok(value: T) | Err(error: Error)

  /** Outcome of a loop that the Go code runs until the data says stop. A loop
      that is still running when its fuel is spent is `Unfinished`: the Go call
      has not returned (and, if the pages never end, never returns). */
  datatype Paged<+T> = Done(value: T) | Failed(error: Error) | Unfinished
}
