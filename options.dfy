/** The optional value used wherever the source uses `None` as "no result". */
module Options {

  datatype Option<+T> = None | Some(value: T)

}
