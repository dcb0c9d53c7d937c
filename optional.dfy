/** The Java `null` of a reference result, made explicit. */
module Optional {

  datatype Option<+T> = None | Some(value: T)
}
