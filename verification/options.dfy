/** An optional value, used for partial results such as a decode that can fail
    or a search that can come back empty. */
module Options {

  datatype Option<+T> = None | Some(value: T)
}
