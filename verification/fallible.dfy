/** An optional value. `None` stands for "the source would have panicked here" (an
    out-of-range index) or for "no value", depending on the member using it. */
module Fallible {

  datatype Option<+T> = None | Some(value: T)

}
