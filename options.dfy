/** An optional value: a form field or session entry that may be absent. */
module Options {

  datatype Option<+T> = None | Some(value: T)

}
