/** The optional-value datatype used for the parsed guess (None stands for NaN)
    and for the nullable start time of the timer. */
module Wrappers {

  datatype Option<+T> = None | Some(value: T)
}
