/** The Option datatype used wherever the source uses `None`, a missing
    entry, or the `float('inf')` "unreachable" sentinel. */
module Optional {

  datatype Option<+T> = None | Some(value: T)
}
