/** Fixed-width integers and the option type shared by the models. */
module Machine {
  type U8 = x: int | 0 <= x < 0x100
  type U16 = x: int | 0 <= x < 0x1_0000
  type U32 = x: int | 0 <= x < 0x1_0000_0000
  type U64 = x: int | 0 <= x < 0x1_0000_0000_0000_0000

  datatype Option<+T> = None | Some(value: T)

  /** A C string argument: a null pointer or its characters. */
  datatype CString = Null | Str(chars: seq<U8>)
}
