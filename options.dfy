/** An optional value: `None` is no result, an exception in the source (`Viewport`) or a text the decoder rejects (`HexEmbed`). */
module Options {
  datatype Option<+T> = None | Some(value: T)
}
