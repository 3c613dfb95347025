/**
 * The type model used by declarations: a finite tree of types, each with a
 * kind, a name and a list of parameters, compared structurally.
 *
 * As in CEL's `Type::parameters()`, a list type's parameters are `[element]`,
 * a map type's `[key, value]`, a function type's `[result] + args`, and an
 * opaque type's its own parameter list.
 */
module Types {

  datatype Kind =
    | DynKind
    | NullKind
    | BoolKind
    | IntKind
    | UintKind
    | DoubleKind
    | StringKind
    | BytesKind
    | BoolWrapperKind
    | IntWrapperKind
    | UintWrapperKind
    | DoubleWrapperKind
    | BytesWrapperKind
    | StringWrapperKind
    | ListKind
    | MapKind
    | OpaqueKind
    | FunctionKind
    | StructKind
    | TypeParamKind
  {
    /** The six nullable wrapper kinds (google.protobuf.*Value). */
    predicate IsWrapper() {
      || BoolWrapperKind? || IntWrapperKind? || UintWrapperKind?
      || DoubleWrapperKind? || BytesWrapperKind? || StringWrapperKind?
    }

    /** Kinds whose parameters are themselves types that may mention type parameters. */
    predicate HasTypeArguments() {
      ListKind? || MapKind? || OpaqueKind? || FunctionKind?
    }
  }

  datatype Type = Type(kind: Kind, name: string, params: seq<Type>)

  const DynType := Type(DynKind, "dyn", [])
  const NullType := Type(NullKind, "null_type", [])
  const BoolType := Type(BoolKind, "bool", [])
  const IntType := Type(IntKind, "int", [])
  const UintType := Type(UintKind, "uint", [])
  const DoubleType := Type(DoubleKind, "double", [])
  const StringType := Type(StringKind, "string", [])
  const BytesType := Type(BytesKind, "bytes", [])
  const BoolWrapperType := Type(BoolWrapperKind, "google.protobuf.BoolValue", [])
  const IntWrapperType := Type(IntWrapperKind, "google.protobuf.Int64Value", [])
  const UintWrapperType := Type(UintWrapperKind, "google.protobuf.UInt64Value", [])
  const DoubleWrapperType := Type(DoubleWrapperKind, "google.protobuf.DoubleValue", [])
  const BytesWrapperType := Type(BytesWrapperKind, "google.protobuf.BytesValue", [])
  const StringWrapperType := Type(StringWrapperKind, "google.protobuf.StringValue", [])

  function ListType(element: Type): Type {
    Type(ListKind, "list", [element])
  }

  function MapType(key: Type, value: Type): Type {
    Type(MapKind, "map", [key, value])
  }

  function FunctionType(result: Type, args: seq<Type>): Type {
    Type(FunctionKind, "function", [result] + args)
  }

  function OpaqueType(name: string, params: seq<Type>): Type {
    Type(OpaqueKind, name, params)
  }

  function StructType(name: string): Type {
    Type(StructKind, name, [])
  }

  function TypeParamType(name: string): Type {
    Type(TypeParamKind, name, [])
  }

  /** The primitive type a wrapper kind makes nullable. */
  function Unwrapped(k: Kind): (t: Type)
    requires k.IsWrapper()
    ensures t.params == [] && !t.kind.IsWrapper() && t.kind != DynKind
  {
    match k
    case BoolWrapperKind => BoolType
    case IntWrapperKind => IntType
    case UintWrapperKind => UintType
    case DoubleWrapperKind => DoubleType
    case BytesWrapperKind => BytesType
    case StringWrapperKind => StringType
  }

  /**
   * The types the type factories can build: every kind with a fixed name
   * carries that name and its fixed number of parameters.
   */
  predicate WellFormed(t: Type) {
    && (match t.kind
        case DynKind => t == DynType
        case NullKind => t == NullType
        case BoolKind => t == BoolType
        case IntKind => t == IntType
        case UintKind => t == UintType
        case DoubleKind => t == DoubleType
        case StringKind => t == StringType
        case BytesKind => t == BytesType
        case BoolWrapperKind => t == BoolWrapperType
        case IntWrapperKind => t == IntWrapperType
        case UintWrapperKind => t == UintWrapperType
        case DoubleWrapperKind => t == DoubleWrapperType
        case BytesWrapperKind => t == BytesWrapperType
        case StringWrapperKind => t == StringWrapperType
        case ListKind => t.name == "list" && |t.params| == 1
        case MapKind => t.name == "map" && |t.params| == 2
        case FunctionKind => t.name == "function" && |t.params| >= 1
        case OpaqueKind => true
        case StructKind => t.params == []
        case TypeParamKind => t.params == [])
    && forall i :: 0 <= i < |t.params| ==> WellFormed(t.params[i])
  }
}
