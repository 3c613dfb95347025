/**
 * Runtime values as the string-formatting extension and the uint value
 * see them, with the 64-bit integer ranges written out and the text of
 * strings and bytes kept as bytes.
 */
module Values {

  /** One byte of a `std::string`; every text in this model is a byte string. */
  type Byte = c: char | c as int < 256
  type Bytes = seq<Byte>

  const Two63: int := 0x8000_0000_0000_0000
  const Two64: int := 0x1_0000_0000_0000_0000

  newtype Int64 = x: int | -Two63 <= x < Two63
  newtype Uint64 = x: int | 0 <= x < Two64

  datatype Option<T> = None | Some(value: T)

  datatype Error = InvalidArgument(message: string) | Internal(message: string)

  datatype Result<T> = Ok(value: T) | Err(error: Error) {
    predicate IsFailure() {
      Err?
    }

    function PropagateFailure<U>(): Result<U>
      requires Err?
    {
      Err(error)
    }

    function Extract(): T
      requires Ok?
    {
      value
    }
  }

  /**
   * A double as the formatter distinguishes it: the three special values,
   * and otherwise the shortest decimal rendering of the number, which is
   * not modelled and is carried as text.
   */
  datatype Double = NaN | PositiveInfinity | NegativeInfinity | Finite(rendering: Bytes)

  datatype ValueKind =
    | NullKind | BoolKind | IntKind | UintKind | DoubleKind | StringKind | BytesKind
    | DurationKind | TimestampKind | ListKind | MapKind | TypeKind | OtherKind

  /**
   * Values. A map is its entries in the map's iteration order. Durations and
   * timestamps carry their rendered text (locale number formatting and time
   * printing are not modelled); `OtherValue` stands for every kind the
   * formatter refuses (structs, opaques, errors, unknowns), with its type name.
   */
  datatype Value =
    | NullValue
    | BoolValue(b: bool)
    | IntValue(i: Int64)
    | UintValue(u: Uint64)
    | DoubleValue(d: Double)
    | StringValue(s: Bytes)
    | BytesValue(bytes: Bytes)
    | DurationValue(rendering: Bytes)
    | TimestampValue(debug: Bytes)
    | ListValue(elements: seq<Value>)
    | MapValue(entries: seq<(Value, Value)>)
    | TypeValue(name: Bytes)
    | OtherValue(typeName: Bytes)
  {
    function Kind(): ValueKind {
      match this
      case NullValue => NullKind
      case BoolValue(_) => BoolKind
      case IntValue(_) => IntKind
      case UintValue(_) => UintKind
      case DoubleValue(_) => DoubleKind
      case StringValue(_) => StringKind
      case BytesValue(_) => BytesKind
      case DurationValue(_) => DurationKind
      case TimestampValue(_) => TimestampKind
      case ListValue(_) => ListKind
      case MapValue(_) => MapKind
      case TypeValue(_) => TypeKind
      case OtherValue(_) => OtherKind
    }

    function TypeName(): Bytes {
      match this
      case NullValue => "null_type"
      case BoolValue(_) => "bool"
      case IntValue(_) => "int"
      case UintValue(_) => "uint"
      case DoubleValue(_) => "double"
      case StringValue(_) => "string"
      case BytesValue(_) => "bytes"
      case DurationValue(_) => "google.protobuf.Duration"
      case TimestampValue(_) => "google.protobuf.Timestamp"
      case ListValue(_) => "list"
      case MapValue(_) => "map"
      case TypeValue(_) => "type"
      case OtherValue(name) => name
    }
  }

  /**
   * `-static_cast<uint64_t>(x)`: the two's-complement negation of `x`
   * computed modulo 2^64, which is how the formatter takes the magnitude of
   * a negative int64 without overflowing on the most negative one.
   */
  function UnsignedNegate(x: Int64): (r: Uint64)
    ensures x < 0 ==> r as int == -(x as int)
    ensures x == -Two63 as Int64 ==> r as int == Two63
  {
    ((Two64 - (x as int % Two64)) % Two64) as Uint64
  }
}
