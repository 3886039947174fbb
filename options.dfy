/** An optional value: `None` stands for a result the source computes as a
    non-finite float (a division by zero). */
module Options {

  datatype Option<+T> = None | Some(value: T)
}
