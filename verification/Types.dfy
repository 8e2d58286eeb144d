/** Machine-width types and the small result types shared by every module. */
module Types {
  const U32_LIMIT: int := 0x1_0000_0000
  const U64_LIMIT: int := 0x1_0000_0000_0000_0000

  type Byte = b: int | 0 <= b < 256
  type U32 = n: int | 0 <= n < U32_LIMIT
  type U64 = n: int | 0 <= n < U64_LIMIT
  type I32 = n: int | -0x8000_0000 <= n < 0x8000_0000

  /** Raw bytes: LMDB keys, stored values, socket data. */
  type Bytes = seq<Byte>

  datatype Option<+T> = None | Some(value: T)

  /** `storage_rc_t`. */
  datatype Rc = Ok | NotFound | TypeErr | Inval | TooBig | Full | Busy | Io | ReadOnly

  datatype Result<+T> = Success(value: T) | Failure(rc: Rc)

  /** The bytes of an ASCII literal. */
  function Ascii(s: string): (r: Bytes)
    requires forall i :: 0 <= i < |s| ==> s[i] < 128 as char
    ensures |r| == |s| && forall i :: 0 <= i < |s| ==> r[i] == s[i] as int
  {
    seq(|s|, i requires 0 <= i < |s| => s[i] as int)
  }
}
