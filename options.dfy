/** An optional value: `None` stands for JavaScript's `undefined` / `null`. */
module Options {

  datatype Option<+T> = None | Some(value: T)
}
