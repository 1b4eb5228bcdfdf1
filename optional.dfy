/** The failure-compatible Option type used wherever the script can raise a
    lookup error or leaves a value absent. */
module Optional {

  datatype Option<+T> = None | Some(value: T)

}
