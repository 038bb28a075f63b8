/** A value that may not be there: the null pointers and the failures of the kernel. */
module Options {

  datatype Option<T> = None | Some(value: T)
}
