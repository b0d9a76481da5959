/** Optional values. `None` stands for a cell that pandas fills with a
    non-finite float (NaN, +inf or -inf): an undefined indicator value. */
module Wrappers {

  datatype Option<+T> = None | Some(value: T)
}
