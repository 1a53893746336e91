/** Kotlin's nullable types `T?`: `None` stands for `null`. */
module Optional {

  datatype Option<+T> = None | Some(value: T)
}
