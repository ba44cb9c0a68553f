/** An optional value. `None` plays the part of Go's `nil` pointer or `nil`
    interface value in both collections. */
module Optional {

  datatype Option<+T> = None | Some(value: T)
}
