/** The values that the stores keep and exchange. */
module Values {
  import opened Bytes

  /** A key or a value: the bytes of a string. */
  type Text = seq<byte>
  type u32 = n: nat | n < 0x1_0000_0000

  datatype Option<+T> = None | Some(value: T)
  datatype KeyValue = KeyValue(key: Text, value: Text)
}
