/** The conventional optional value, used for a matcher that fails and for a decode that fails. */
module Optional {

  datatype Option<+T> = None | Some(value: T)

}
