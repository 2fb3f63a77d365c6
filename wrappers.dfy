/** The nullable values of the component's state (`number | null`, `"top" | "bottom" | null`). */
module Wrappers {

  datatype Option<+T> = None | Some(value: T)

}
