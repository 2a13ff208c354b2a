/** The nullable values of the modelled program (`T | null` in TypeScript). */
module Wrappers {

  datatype Option<+T> = None | Some(value: T)
}
