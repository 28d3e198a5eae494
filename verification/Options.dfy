/**
 A value that may be absent: an operation that finds nothing, or that stops the program.
 */
module Options {

  datatype Option<T> = None | Some(value: T)
}
