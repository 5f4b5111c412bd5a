/** Conversion of a netidx value into a JavaScript value (`js_of_value`).
    The JavaScript side is an abstract datatype: creating a host value is
    taken to succeed, so the only failures are the conversions the binding
    leaves unimplemented. */
module HostConvert {
  import NV = NetValue
  import VK = ValueKind

  /** A JavaScript number made from a float payload: the `f32` widened to
      `f64`, or the `f64` itself. Only the source bits are recorded. */
  datatype Double = Widened32(f32Bits: NV.Uint32) | Exact64(f64Bits: NV.Uint64)

  datatype JsValue =
    | JsUint32(u: NV.Uint32)
    | JsInt32(i: NV.Int32)
    | JsInt64(l: NV.Int64)
    | JsDouble(d: Double)
    | JsString(s: string)
    | JsBuffer(bytes: seq<NV.Byte>)
    | JsBoolean(b: bool)
    | JsSymbol(description: string)
    | JsErrorObject(error: string)
    | JsArray(elements: seq<JsValue>)
    | JsNull

  datatype Error = InvalidArg(reason: string)

  datatype Result<T> = Success(value: T) | Failure(error: Error)

  const UnimplementedConversion: string := "unimplemented value conversion"

  /** `u as i64`: the two's-complement reading of a 64-bit pattern. It is
      the one signed 64-bit integer congruent to `u` modulo 2^64. */
  function AsI64(u: NV.Uint64): (i: NV.Int64)
    ensures (i - u) % NV.U64_LIMIT == 0
    ensures i < 0 <==> u >= NV.I64_LIMIT
  {
    if u < NV.I64_LIMIT then u else u - NV.U64_LIMIT
  }

  /** `i as u64`, the inverse reading. */
  function AsU64(i: NV.Int64): (u: NV.Uint64)
    ensures (i - u) % NV.U64_LIMIT == 0
  {
    if i >= 0 then i else i + NV.U64_LIMIT
  }

  /** The reinterpretation loses nothing: both readings are inverse bijections. */
  lemma AsI64RoundTrip(u: NV.Uint64, i: NV.Int64)
    ensures AsU64(AsI64(u)) == u
    ensures AsI64(AsU64(i)) == i
  {
  }

  /** Converts one value. `Duration` and `DateTime` are rejected with the
      one error the binding raises, at any depth; an array is converted
      element by element into a host array of the same length, and fails
      with its first failing element. */
  function ToJs(v: NV.Value): (r: Result<JsValue>)
    ensures r.Failure? ==> r.error == InvalidArg(UnimplementedConversion)
    ensures v.Array? && r.Success? ==> r.value.JsArray? && |r.value.elements| == |v.items|
    decreases v, 1
  {
    match v
    case U32(u) => Success(JsUint32(u))
    case V32(u) => Success(JsUint32(u))
    case I32(i) => Success(JsInt32(i))
    case Z32(i) => Success(JsInt32(i))
    case U64(u) => Success(JsInt64(AsI64(u)))
    case V64(u) => Success(JsInt64(AsI64(u)))
    case I64(i) => Success(JsInt64(i))
    case Z64(i) => Success(JsInt64(i))
    case F32(bits) => Success(JsDouble(Widened32(bits)))
    case F64(bits) => Success(JsDouble(Exact64(bits)))
    case String(s) => Success(JsString(s))
    case Bytes(b) => Success(JsBuffer(b))
    case True => Success(JsBoolean(true))
    case False => Success(JsBoolean(false))
    case Ok => Success(JsSymbol("Ok"))
    case Error(e) => Success(JsErrorObject(e))
    case Array(a) =>
      (match ToJsAll(a)
       case Success(elements) => Success(JsArray(elements))
       case Failure(err) => Failure(err))
    case Null => Success(JsNull)
    case Duration(_) => Failure(InvalidArg(UnimplementedConversion))
    case DateTime(_) => Failure(InvalidArg(UnimplementedConversion))
  }

  /** The loop over an array's elements, with `?` propagation: on success
      the elements converted one by one, in order; otherwise the failure of
      the first element that fails, every element before it having converted. */
  function ToJsAll(vs: seq<NV.Value>): (r: Result<seq<JsValue>>)
    ensures r.Success? ==>
              |r.value| == |vs| && forall i :: 0 <= i < |vs| ==> ToJs(vs[i]) == Success(r.value[i])
    ensures r.Failure? ==>
              exists i :: 0 <= i < |vs| && ToJs(vs[i]) == Failure(r.error) &&
                          forall j :: 0 <= j < i ==> ToJs(vs[j]).Success?
    decreases vs, 0
  {
    if vs == [] then Success([])
    else
      match ToJs(vs[0])
      case Failure(err) => Failure(err)
      case Success(head) =>
        match ToJsAll(vs[1..])
        case Failure(err) => Failure(err)
        case Success(tail) => Success([head] + tail)
  }

  /** A value holds a time value when it is a `Duration` or a `DateTime`, or
      an array with an element that holds one, at any depth. */
  predicate HoldsTime(v: NV.Value)
    decreases v, 1
  {
    match v
    case Duration(_) => true
    case DateTime(_) => true
    case Array(a) => AnyHoldsTime(a)
    case _ => false
  }

  predicate AnyHoldsTime(vs: seq<NV.Value>)
    decreases vs, 0
  {
    vs != [] && (HoldsTime(vs[0]) || AnyHoldsTime(vs[1..]))
  }

  /** Conversion fails exactly on values that hold a time value. */
  lemma {:induction false} ToJsFailsIffHoldsTime(v: NV.Value)
    ensures ToJs(v).Failure? <==> HoldsTime(v)
    decreases v, 1
  {
    match v
    case Array(a) => ToJsAllFailsIffAnyHoldsTime(a);
    case _ =>
  }

  lemma {:induction false} ToJsAllFailsIffAnyHoldsTime(vs: seq<NV.Value>)
    ensures ToJsAll(vs).Failure? <==> AnyHoldsTime(vs)
    decreases vs, 0
  {
    if vs != [] {
      ToJsFailsIffHoldsTime(vs[0]);
      ToJsAllFailsIffAnyHoldsTime(vs[1..]);
    }
  }

  /** What each scalar variant becomes, with the same payload. */
  lemma ScalarConversions(v: NV.Value)
    ensures (v.U32? || v.V32?) ==> ToJs(v) == Success(JsUint32(if v.U32? then v.u32 else v.v32))
    ensures (v.I32? || v.Z32?) ==> ToJs(v) == Success(JsInt32(if v.I32? then v.i32 else v.z32))
    ensures (v.U64? || v.V64?) ==>
              var u := if v.U64? then v.u64 else v.v64;
              ToJs(v) == Success(JsInt64(if u >= NV.I64_LIMIT then u - NV.U64_LIMIT else u))
    ensures (v.I64? || v.Z64?) ==> ToJs(v) == Success(JsInt64(if v.I64? then v.i64 else v.z64))
    ensures v.True? ==> ToJs(v) == Success(JsBoolean(true))
    ensures v.False? ==> ToJs(v) == Success(JsBoolean(false))
    ensures v.Null? ==> ToJs(v) == Success(JsNull)
    ensures v.Ok? ==> ToJs(v) == Success(JsSymbol("Ok"))
    ensures v.Error? ==> ToJs(v) == Success(JsErrorObject(v.message))
    ensures v.String? ==> ToJs(v) == Success(JsString(v.s))
    ensures v.Bytes? ==> ToJs(v).Success? && |ToJs(v).value.bytes| == |v.bytes| &&
                         forall k :: 0 <= k < |v.bytes| ==> ToJs(v).value.bytes[k] == v.bytes[k]
  {
  }

  /** The shape of JavaScript value each kind of netidx value turns into. */
  predicate ShapeOf(k: VK.ValueType, j: JsValue)
  {
    match k
    case Integer => j.JsUint32? || j.JsInt32? || j.JsInt64?
    case Float => j.JsDouble?
    case Boolean => j.JsBoolean?
    case String => j.JsString?
    case Buffer => j.JsBuffer?
    case Result => j.JsSymbol? || j.JsErrorObject?
    case Array => j.JsArray?
    case Null => j.JsNull?
    case Duration => false
    case DateTime => false
  }

  /** The kind reported to the host agrees with the value the host receives:
      a successful conversion has the shape of the value's kind, and the
      conversion of a value whose kind is neither `Duration`, `DateTime` nor
      `Array` always succeeds. */
  lemma KindPredictsShape(v: NV.Value)
    ensures ToJs(v).Success? ==> ShapeOf(VK.Kind(v), ToJs(v).value)
    ensures VK.Kind(v) !in {VK.Duration, VK.DateTime, VK.Array} ==> ToJs(v).Success?
    ensures VK.Kind(v) in {VK.Duration, VK.DateTime} ==> ToJs(v).Failure?
  {
  }
}
