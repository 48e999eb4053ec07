/** Small wrapper types shared by the rest of the model. */
module Common {

  /** An optional value: `undefined` / `null` on the JavaScript side. */
  datatype Option<+T> = None | Some(value: T)

  /** The outcome of an expression that either yields a value or throws. */
  datatype Evaluation<+T> = Ok(value: T) | Crash(reason: string)
}
