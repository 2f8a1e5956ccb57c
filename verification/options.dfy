/** The conventional Some/None datatype; stands in for Python's `None` and for
    the `float('inf')` "nothing found yet" sentinel. */
module Options {

  datatype Option<+T> = None | Some(value: T)
}
