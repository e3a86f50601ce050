/** The handler concept: the events a reader or a value sends, and what decides whether it may go on. */
module Events {
  import opened Streams

  type int32 = x: int | -0x8000_0000 <= x < 0x8000_0000
  type uint32 = x: int | 0 <= x < 0x1_0000_0000
  type int64 = x: int | -0x8000_0000_0000_0000 <= x < 0x8000_0000_0000_0000
  type uint64 = x: int | 0 <= x < 0x1_0000_0000_0000_0000

  /** The word that any integer is cut to, and a word read as two's complement: so do conversions and arithmetic wrap. */
  function Word32(x: int): uint32 {
    x % 0x1_0000_0000
  }

  function Signed32(u: uint32): int32 {
    if u < 0x8000_0000 then u else u - 0x1_0000_0000
  }

  function Wrap32(x: int): int32 {
    Signed32(Word32(x))
  }

  function Word64(x: int): uint64 {
    x % 0x1_0000_0000_0000_0000
  }

  function Signed64(u: uint64): int64 {
    if u < 0x8000_0000_0000_0000 then u else u - 0x1_0000_0000_0000_0000
  }

  function Wrap64(x: int): int64 {
    Signed64(Word64(x))
  }

  /** A double, known only by its 64 bits. */
  datatype Float = Float(bits: nat)

  datatype Event =
    | Null
    | Bool(b: bool)
    | Int(i: int32)
    | Uint(u: uint32)
    | Int64(i64: int64)
    | Uint64(u64: uint64)
    | Double(d: Float)
    | String(text: bytes)
    | Key(text: bytes)
    | StartObject
    | EndObject(count: uint32)
    | StartArray
    | EndArray(count: uint32)

  /** The floating-point operations of ParseNumber. Every theorem holds for any choice of them. */
  datatype FloatOps = FloatOps(
    ofUint64: nat -> Float,            // (double)i64
    appendDigit: (Float, nat) -> Float,  // d * 10 + digit
    tooBig: Float -> bool,             // d >= DBL_MAX / 10
    scale: (Float, int) -> Float,      // StrtodFastPath
    negate: Float -> Float)

  /** What a parse depends on besides its text. A handler is any function that decides from
      the events sent so far, the new one last, whether parsing continues. */
  datatype Config = Config(
    validate: bool,                    // kParseValidateEncodingFlag
    stopWhenDone: bool,                // kParseStopWhenDoneFlag
    accept: seq<Event> -> bool,
    float: FloatOps)

  /** SizeType is a 32-bit unsigned integer. */
  const SIZE_MODULUS: nat := 0x1_0000_0000

  function IncSize(n: uint32): uint32 {
    (n + 1) % SIZE_MODULUS
  }
}
