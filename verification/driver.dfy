/** The Neo4j driver's `Value`, reduced to what `Cursor` observes.

    Nodes and relationships expose only their properties: identity, labels
    and relationship type never reach the cursor. The driver's coercions
    (`asString`, `asInt`, ...) are foreign code; they are modelled on exact
    kinds, with the one narrowing the cursor relies on (`asInt` on a 64-bit
    integer) checked for loss. */
module Driver {
  import opened Wrappers
  import Jvm

  datatype Value =
    | NullValue
    | IntegerValue(integer: Jvm.Int64)
    | FloatValue(float: Jvm.Float64)
    | StringValue(str: string)
    | BooleanValue(boolean: bool)
    | ListValue(items: seq<Value>)
    | MapLike(shape: Shape, properties: map<string, Value>)

  /** The driver's three keyed values, `MapValue`, `NodeValue` and
      `RelationshipValue`, differ only in their type name here. */
  datatype Shape = MapShape | NodeShape | RelationshipShape

  /** The driver's type names, as its error messages report them. */
  datatype TypeName = NULL | INTEGER | FLOAT | STRING | BOOLEAN | LIST | MAP | NODE | RELATIONSHIP

  function TypeOf(v: Value): TypeName
  {
    match v
    case NullValue => NULL
    case IntegerValue(_) => INTEGER
    case FloatValue(_) => FLOAT
    case StringValue(_) => STRING
    case BooleanValue(_) => BOOLEAN
    case ListValue(_) => LIST
    case MapLike(MapShape, _) => MAP
    case MapLike(NodeShape, _) => NODE
    case MapLike(RelationshipShape, _) => RELATIONSHIP
  }

  /** The Java type a coercion was asked to produce. */
  datatype Target = JavaString | JavaInt | JavaLong | JavaDouble | JavaBoolean | JavaList | JavaMap

  /** The driver's failures: `value[key]` on a value without keys
      (`NotMultiValued`), a coercion to the wrong kind (`Uncoercible`), and a
      narrowing that would lose information (`LossyCoercion`). */
  datatype Error =
    | NotMultiValued(of: TypeName)
    | Uncoercible(from: TypeName, to: Target)
    | LossyCoercion(source: TypeName, target: Target)

  /** Values that answer `value[key]`: maps, nodes and relationships. */
  predicate Keyed(v: Value)
  {
    v.MapLike?
  }

  /** The key-value view of a keyed value: a map's entries, or an entity's
      properties. */
  function Properties(v: Value): map<string, Value>
    requires Keyed(v)
  {
    v.properties
  }

  /** `value[key]` (`Value.get(String)`): on a keyed value, the bound value or
      `NullValue` when the key is absent; on anything else, `NotMultiValued`. */
  function Field(v: Value, key: string): (r: Result<Value, Error>)
    ensures r.Success? <==> Keyed(v)
    ensures r.Failure? ==> r.error == NotMultiValued(TypeOf(v))
    ensures r.Success? && key in Properties(v) ==> r.value == Properties(v)[key]
    ensures r.Success? && key !in Properties(v) ==> r.value == NullValue
  {
    if Keyed(v) then
      var props := Properties(v);
      Success(if key in props then props[key] else NullValue)
    else
      Failure(NotMultiValued(TypeOf(v)))
  }

  /** The scalar kinds the cursor reads. */
  datatype Kind = StringKind | IntKind | LongKind | DoubleKind | BoolKind

  /** A coerced scalar, tagged with its Java type. */
  datatype Scalar =
    | JString(s: string)
    | JInt(i: Jvm.Int32)
    | JLong(l: Jvm.Int64)
    | JDouble(d: Jvm.Float64)
    | JBoolean(b: bool)
  {
    function KindOf(): Kind
    {
      match this
      case JString(_) => StringKind
      case JInt(_) => IntKind
      case JLong(_) => LongKind
      case JDouble(_) => DoubleKind
      case JBoolean(_) => BoolKind
    }
  }

  function TargetOf(kind: Kind): Target
  {
    match kind
    case StringKind => JavaString
    case IntKind => JavaInt
    case LongKind => JavaLong
    case DoubleKind => JavaDouble
    case BoolKind => JavaBoolean
  }

  /** Whether a 64-bit integer fits a Java `int`. */
  predicate FitsInt32(i: int)
  {
    -0x8000_0000 <= i < 0x8000_0000
  }

  /** Whether `v` has a Java reading of kind `kind`: the exact driver type,
      and for `Int` a value in range. */
  predicate Coercible(v: Value, kind: Kind)
  {
    match kind
    case StringKind => v.StringValue?
    case IntKind => v.IntegerValue? && FitsInt32(v.integer)
    case LongKind => v.IntegerValue?
    case DoubleKind => v.FloatValue?
    case BoolKind => v.BooleanValue?
  }

  /** `s` is the Java reading of `v`: the same payload. Together with its
      kind, this determines `s`. */
  predicate Carries(v: Value, s: Scalar)
  {
    match s
    case JString(x) => v == StringValue(x)
    case JInt(x) => v == IntegerValue(x)
    case JLong(x) => v == IntegerValue(x)
    case JDouble(x) => v == FloatValue(x)
    case JBoolean(x) => v == BooleanValue(x)
  }

  /** `asString()`, `asInt()`, `asLong()`, `asDouble()`, `asBoolean()` on a
      non-null value. A result always has the requested kind and carries the
      value's own payload; an integer out of `Int` range is a lossy coercion,
      anything else of the wrong type is uncoercible. */
  function Coerce(v: Value, kind: Kind): (r: Result<Scalar, Error>)
    requires !v.NullValue?
    ensures r.Success? <==> Coercible(v, kind)
    ensures r.Success? ==> r.value.KindOf() == kind && Carries(v, r.value)
    ensures r.Failure? && v.IntegerValue? && kind == IntKind ==> r.error == LossyCoercion(INTEGER, JavaInt)
    ensures r.Failure? && !(v.IntegerValue? && kind == IntKind) ==> r.error == Uncoercible(TypeOf(v), TargetOf(kind))
  {
    match kind
    case StringKind =>
      if v.StringValue? then Success(JString(v.str)) else Failure(Uncoercible(TypeOf(v), JavaString))
    case IntKind =>
      if !v.IntegerValue? then Failure(Uncoercible(TypeOf(v), JavaInt))
      else if FitsInt32(v.integer) then Success(JInt(v.integer))
      else Failure(LossyCoercion(INTEGER, JavaInt))
    case LongKind =>
      if v.IntegerValue? then Success(JLong(v.integer)) else Failure(Uncoercible(TypeOf(v), JavaLong))
    case DoubleKind =>
      if v.FloatValue? then Success(JDouble(v.float)) else Failure(Uncoercible(TypeOf(v), JavaDouble))
    case BoolKind =>
      if v.BooleanValue? then Success(JBoolean(v.boolean)) else Failure(Uncoercible(TypeOf(v), JavaBoolean))
  }
}
