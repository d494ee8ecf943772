/**
 * The optional value used wherever the source has `Element | null` or
 * `Element | undefined`: one `None` stands for both `null` and `undefined`.
 */
module Options {

  datatype Option<+T> = None | Some(value: T)

}
