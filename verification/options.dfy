/** The Java `null`-or-object convention, as a datatype. */
module Options {

  /** `None` stands for a Java `null` reference. */
  datatype Option<+T> = None | Some(value: T)
}
