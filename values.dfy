/** The netidx wire value as this binding sees it, and the fixed-width
    integer types its payloads and identifiers use. */
module NetValue {

  const U32_LIMIT: int := 0x1_0000_0000
  const I64_LIMIT: int := 0x8000_0000_0000_0000
  const U64_LIMIT: int := 0x1_0000_0000_0000_0000

  type Byte = x: int | 0 <= x < 0x100
  type Uint32 = x: int | 0 <= x < U32_LIMIT
  type Int32 = x: int | -0x8000_0000 <= x < 0x8000_0000
  type Uint64 = x: int | 0 <= x < U64_LIMIT
  type Int64 = x: int | -I64_LIMIT <= x < I64_LIMIT

  /** One netidx value. Float payloads are carried as their IEEE-754 bit
      patterns and timestamps and durations as plain numbers: this binding
      never computes with them, it only converts or rejects them. */
  datatype Value =
    | U32(u32: Uint32)
    | V32(v32: Uint32)
    | I32(i32: Int32)
    | Z32(z32: Int32)
    | U64(u64: Uint64)
    | V64(v64: Uint64)
    | I64(i64: Int64)
    | Z64(z64: Int64)
    | F32(f32Bits: Uint32)
    | F64(f64Bits: Uint64)
    | DateTime(timestamp: int)
    | Duration(nanos: nat)
    | String(s: string)
    | Bytes(bytes: seq<Byte>)
    | True
    | False
    | Ok
    | Error(message: string)
    | Array(items: seq<Value>)
    | Null

  /** True when `a` and `b` are built by the same constructor, whatever their payloads. */
  predicate SameVariant(a: Value, b: Value)
  {
    match (a, b)
    case (U32(_), U32(_)) => true
    case (V32(_), V32(_)) => true
    case (I32(_), I32(_)) => true
    case (Z32(_), Z32(_)) => true
    case (U64(_), U64(_)) => true
    case (V64(_), V64(_)) => true
    case (I64(_), I64(_)) => true
    case (Z64(_), Z64(_)) => true
    case (F32(_), F32(_)) => true
    case (F64(_), F64(_)) => true
    case (DateTime(_), DateTime(_)) => true
    case (Duration(_), Duration(_)) => true
    case (String(_), String(_)) => true
    case (Bytes(_), Bytes(_)) => true
    case (True, True) => true
    case (False, False) => true
    case (Ok, Ok) => true
    case (Error(_), Error(_)) => true
    case (Array(_), Array(_)) => true
    case (Null, Null) => true
    case _ => false
  }

  /** The integer variants, fixed-width and variable-width, signed and unsigned. */
  predicate IsIntegerVariant(v: Value)
  {
    v.U32? || v.V32? || v.I32? || v.Z32? || v.U64? || v.V64? || v.I64? || v.Z64?
  }
}

/** The classification of a value into the ten kinds the host sees (`Value::kind`). */
module ValueKind {
  import NV = NetValue

  datatype ValueType =
    | Null
    | Boolean
    | Integer
    | Float
    | String
    | Duration
    | DateTime
    | Buffer
    | Result
    | Array

  /** Every variant falls into exactly one kind; each kind is produced by
      exactly the variants listed for it, and by no other. */
  function Kind(v: NV.Value): (k: ValueType)
    ensures k == Integer <==> NV.IsIntegerVariant(v)
    ensures k == Float <==> v.F32? || v.F64?
    ensures k == Boolean <==> v.True? || v.False?
    ensures k == Result <==> v.Ok? || v.Error?
    ensures k == Buffer <==> v.Bytes?
    ensures k == String <==> v.String?
    ensures k == DateTime <==> v.DateTime?
    ensures k == Duration <==> v.Duration?
    ensures k == Array <==> v.Array?
    ensures k == Null <==> v.Null?
  {
    match v
    case U32(_) => Integer
    case V32(_) => Integer
    case I32(_) => Integer
    case Z32(_) => Integer
    case U64(_) => Integer
    case V64(_) => Integer
    case I64(_) => Integer
    case Z64(_) => Integer
    case F32(_) => Float
    case F64(_) => Float
    case DateTime(_) => DateTime
    case Duration(_) => Duration
    case String(_) => String
    case Bytes(_) => Buffer
    case Ok => Result
    case Error(_) => Result
    case Array(_) => Array
    case True => Boolean
    case False => Boolean
    case Null => Null
  }

  /** The kind is decided by the constructor alone, never by the payload. */
  lemma KindIgnoresPayload(a: NV.Value, b: NV.Value)
    requires NV.SameVariant(a, b)
    ensures Kind(a) == Kind(b)
  {
  }
}
