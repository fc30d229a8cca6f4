/** Small wrapper datatypes shared by the rest of the model. */
module Outcomes {

  /** A value that may be absent, as a JavaScript field that may be `undefined`. */
  datatype Option<+T> = None | Some(value: T)

  /** What a remote call delivered to the component. The component only ever
      distinguishes success from failure; the error itself is logged and
      dropped, so `Failed` carries nothing. */
  datatype Outcome<+T> = Ok(value: T) | Failed
}
