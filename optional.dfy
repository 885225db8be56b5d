/** The usual Some/None wrapper, used for lookups that may fail and for the
    response that may or may not be written. */
module Optional {

  datatype Option<+T> = None | Some(value: T)

}
