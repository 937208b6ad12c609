/** Kotlin's nullable values (`Fruit?`, `ShuffleTask?`) as an explicit option type. */
module Optional {

  datatype Option<+T> = None | Some(value: T)

}
