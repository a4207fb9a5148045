/** The nullable value used for the recognizer's baselines (a `number | null`
    ref in the TypeScript component). */
module Options {

  datatype Option<+T> = None | Some(value: T)
}
