/** An optional value: the result of a search that may find nothing, or an
    argument that exists on some hardware families only. */
module Options {

  datatype Option<+T> = None | Some(value: T)
}
