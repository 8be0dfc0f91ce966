/** Python's `None`-or-value results, shared by the three game cores. */
module Optional {

  datatype Option<+T> = None | Some(value: T)

}
