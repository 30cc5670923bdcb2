/** A value that may be missing: a DOM attribute that is not set, a
    localStorage key that was never written, an element id nothing handles. */
module Optional {

  datatype Option<T> = None | Some(value: T)

}
