/** `Cursor`: a read-only view of one driver `Value`, with nullable and
    non-null scalar accessors, keyed access into maps, nodes and
    relationships, and conversion of a whole value into plain Kotlin
    collections.

    A lazily computed property (`val string by lazy`) is modelled as a
    function of the wrapped value: memoisation does not change its result. */
module Cursors {
  import opened Wrappers
  import Jvm
  import opened Driver

  datatype Cursor = Cursor(value: Driver.Value)

  /** What a cursor read throws: the `NullPointerException` of Kotlin's `!!`,
      or an exception raised by the driver. */
  datatype CursorError = NullPointer | DriverError(cause: Driver.Error)

  /** A plain Kotlin value as `transform` builds it: `null`, a boxed scalar as
      the driver's `asObject()` returns it, a `List<Any?>` or a
      `Map<String, Any?>`. */
  datatype Native =
    | NNull
    | NLong(l: Jvm.Int64)
    | NDouble(d: Jvm.Float64)
    | NString(s: string)
    | NBool(b: bool)
    | NList(elements: seq<Native>)
    | NMap(entries: map<string, Native>)

  /** Carries a driver failure over into a cursor failure. */
  function Lift<T>(r: Result<T, Driver.Error>): (l: Result<T, CursorError>)
    ensures l.Success? <==> r.Success?
    ensures l.Success? ==> l.value == r.value
    ensures l.Failure? ==> l.error == DriverError(r.error)
  {
    match r
    case Success(x) => Success(x)
    case Failure(e) => Failure(DriverError(e))
  }

  /** Kotlin's `!!` on a nullable result: null becomes a
      `NullPointerException`, a value passes, a failure propagates. */
  function NotNull<T>(r: Result<Option<T>, CursorError>): (n: Result<T, CursorError>)
    ensures n.Success? <==> r.Success? && r.value.Some?
    ensures n.Success? ==> n.value == r.value.value
    ensures r == Success(None) ==> n == Failure(NullPointer)
    ensures r.Failure? ==> n == Failure(r.error)
  {
    match r
    case Success(Some(x)) => Success(x)
    case Success(None) => Failure(NullPointer)
    case Failure(e) => Failure(e)
  }

  /** `Value.nullable()`: the driver's `NullValue` read as Kotlin `null`. */
  function Nullable(v: Driver.Value): (r: Option<Driver.Value>)
    ensures r.None? <==> v.NullValue?
    ensures r.Some? ==> r.value == v
  {
    if v.NullValue? then None else Some(v)
  }

  /** `isNull`: whether the wrapped value is the driver's null, which is
      exactly when `nullable()` reads it as Kotlin `null`. */
  function IsNull(c: Cursor): (r: bool)
    ensures r <==> Nullable(c.value).None?
  {
    c.value.NullValue?
  }

  /** `nullable()?.asX()` on one value: null stays null, anything else is
      coerced by the driver. */
  function ScalarOrNull(v: Driver.Value, kind: Kind): (r: Result<Option<Scalar>, CursorError>)
    ensures r == Success(None) <==> v.NullValue?
    ensures r.Success? && r.value.Some? <==> !v.NullValue? && Coercible(v, kind)
    ensures r.Success? && r.value.Some? ==> r.value.value.KindOf() == kind && Carries(v, r.value.value)
    ensures r.Failure? ==> !v.NullValue? && Coerce(v, kind).Failure? && r.error == DriverError(Coerce(v, kind).error)
  {
    match Nullable(v)
    case None => Success(None)
    case Some(u) =>
      var s :- Lift(Coerce(u, kind));
      Success(Some(s))
  }

  /** The lazy `stringOrNull`, `intOrNull`, `longOrNull`, `doubleOrNull` and
      `boolOrNull` properties: null exactly when the cursor is null, and never a
      `NullPointerException`. */
  function GetOrNull(c: Cursor, kind: Kind): (r: Result<Option<Scalar>, CursorError>)
    ensures r == Success(None) <==> IsNull(c)
    ensures r.Success? && r.value.Some? ==> r.value.value.KindOf() == kind && Carries(c.value, r.value.value)
    ensures !IsNull(c) ==> (r.Success? <==> Coercible(c.value, kind))
    ensures r.Failure? ==> !IsNull(c) && Coerce(c.value, kind).Failure? && r.error == DriverError(Coerce(c.value, kind).error)
  {
    ScalarOrNull(c.value, kind)
  }

  /** The lazy `string`, `int`, `long`, `double` and `bool` properties: the
      nullable reading, with null turned into a `NullPointerException`. */
  function Get(c: Cursor, kind: Kind): (r: Result<Scalar, CursorError>)
    ensures IsNull(c) <==> r == Failure(NullPointer)
    ensures r.Success? <==> !IsNull(c) && Coercible(c.value, kind)
    ensures r.Success? ==> GetOrNull(c, kind) == Success(Some(r.value))
    ensures r.Failure? && !IsNull(c) ==> GetOrNull(c, kind) == Failure(r.error)
  {
    NotNull(GetOrNull(c, kind))
  }

  /** `unwrap(key)`: a cursor on `value[key]`. On a map, node or relationship
      an absent key gives a null cursor; on any other value the driver
      throws. */
  function Unwrap(c: Cursor, key: string): (r: Result<Cursor, CursorError>)
    ensures r.Success? <==> Keyed(c.value)
    ensures r.Failure? ==> r.error == DriverError(NotMultiValued(TypeOf(c.value)))
    ensures r.Success? && key in Properties(c.value) ==> r.value.value == Properties(c.value)[key]
    ensures r.Success? && key !in Properties(c.value) ==> IsNull(r.value)
  {
    var v :- Lift(Field(c.value, key));
    Success(Cursor(v))
  }

  /** The keyed `stringOrNull(key)`, `intOrNull(key)`, ... accessors: the
      same as unwrapping `key` and then reading the nullable property. */
  function GetOrNullAt(c: Cursor, key: string, kind: Kind): (r: Result<Option<Scalar>, CursorError>)
    ensures Unwrap(c, key).Success? ==> r == GetOrNull(Unwrap(c, key).value, kind)
    ensures Unwrap(c, key).Failure? ==> r == Failure(Unwrap(c, key).error)
  {
    var v :- Lift(Field(c.value, key));
    ScalarOrNull(v, kind)
  }

  /** The keyed `string(key)`, `int(key)`, ... accessors: the same as
      unwrapping `key` and then reading the non-null property. */
  function GetAt(c: Cursor, key: string, kind: Kind): (r: Result<Scalar, CursorError>)
    ensures Unwrap(c, key).Success? ==> r == Get(Unwrap(c, key).value, kind)
    ensures Unwrap(c, key).Failure? ==> r == Failure(Unwrap(c, key).error)
  {
    NotNull(GetOrNullAt(c, key, kind))
  }

  /** `transform`: nulls become `null`, lists and maps are converted element
      by element, nodes and relationships become the map of their
      properties, and any other value is the driver's `asObject()`. */
  function Transform(v: Driver.Value): (r: Native)
    ensures r.NNull? <==> v.NullValue?
    ensures r.NList? <==> v.ListValue?
    ensures r.NMap? <==> Keyed(v)
    ensures r.NList? ==> |r.elements| == |v.items|
    ensures r.NMap? ==> r.entries.Keys == Properties(v).Keys
  {
    match v
    case NullValue => NNull
    case IntegerValue(l) => NLong(l)
    case FloatValue(d) => NDouble(d)
    case StringValue(s) => NString(s)
    case BooleanValue(b) => NBool(b)
    case ListValue(items) => NList(seq(|items|, i requires 0 <= i < |items| => Transform(items[i])))
    case MapLike(_, p) => NMap(map k | k in p :: Transform(p[k]))
  }

  /** `asMapOrNull()`: null for a null cursor, otherwise the driver's
      `asMap` with every entry transformed; a value without keys cannot be
      read as a map. */
  function AsMapOrNull(c: Cursor): (r: Result<Option<map<string, Native>>, CursorError>)
    ensures r == Success(None) <==> IsNull(c)
    ensures r.Success? && r.value.Some? <==> Keyed(c.value)
    ensures r.Success? && r.value.Some? ==> NMap(r.value.value) == Transform(c.value)
    ensures r.Failure? ==> r.error == DriverError(Uncoercible(TypeOf(c.value), JavaMap))
  {
    match Nullable(c.value)
    case None => Success(None)
    case Some(v) =>
      if Keyed(v) then
        var props := Properties(v);
        Success(Some(map k | k in props :: Transform(props[k])))
      else
        Failure(DriverError(Uncoercible(TypeOf(v), JavaMap)))
  }

  /** `asMap()`: `asMapOrNull()!!`. */
  function AsMap(c: Cursor): (r: Result<map<string, Native>, CursorError>)
    ensures IsNull(c) <==> r == Failure(NullPointer)
    ensures r.Success? <==> Keyed(c.value)
    ensures r.Success? ==> AsMapOrNull(c) == Success(Some(r.value)) && NMap(r.value) == Transform(c.value)
    ensures r.Failure? && !IsNull(c) ==> AsMapOrNull(c) == Failure(r.error)
  {
    NotNull(AsMapOrNull(c))
  }

  /** `asSequence()`: one cursor per list element, in order. Any other value,
      null included, cannot be read as a list. */
  function AsSequence(c: Cursor): (r: Result<seq<Cursor>, CursorError>)
    ensures r.Success? <==> c.value.ListValue?
    ensures r.Success? ==> |r.value| == |c.value.items|
    ensures r.Success? ==> forall i | 0 <= i < |r.value| :: r.value[i] == Cursor(c.value.items[i])
    ensures r.Failure? ==> r.error == DriverError(Uncoercible(TypeOf(c.value), JavaList))
  {
    if c.value.ListValue? then
      Success(seq(|c.value.items|, i requires 0 <= i < |c.value.items| => Cursor(c.value.items[i])))
    else
      Failure(DriverError(Uncoercible(TypeOf(c.value), JavaList)))
  }

  /** A plain value put back into the driver's vocabulary. */
  function Embed(n: Native): Driver.Value
  {
    match n
    case NNull => NullValue
    case NLong(l) => IntegerValue(l)
    case NDouble(d) => FloatValue(d)
    case NString(s) => StringValue(s)
    case NBool(b) => BooleanValue(b)
    case NList(es) => ListValue(seq(|es|, i requires 0 <= i < |es| => Embed(es[i])))
    case NMap(m) => MapLike(MapShape, map k | k in m :: Embed(m[k]))
  }

  /** A driver value with every node and relationship, at any depth,
      replaced by the map of its properties. */
  function Flatten(v: Driver.Value): Driver.Value
  {
    match v
    case ListValue(items) => ListValue(seq(|items|, i requires 0 <= i < |items| => Flatten(items[i])))
    case MapLike(_, p) => MapLike(MapShape, map k | k in p :: Flatten(p[k]))
    case _ => v
  }

  /** `transform` loses nothing of a plain value: embedding it in the driver
      and transforming it back gives it again. */
  lemma {:induction false} TransformEmbed(n: Native)
    ensures Transform(Embed(n)) == n
  {
    match n
    case NList(es) =>
      var t := Transform(Embed(n));
      forall i | 0 <= i < |es| ensures t.elements[i] == es[i] {
        TransformEmbed(es[i]);
      }
    case NMap(m) =>
      var t := Transform(Embed(n));
      forall k | k in m ensures t.entries[k] == m[k] {
        TransformEmbed(m[k]);
      }
    case _ =>
  }

  /** What `transform` forgets is exactly the difference between an entity
      and the map of its properties. */
  lemma {:induction false} EmbedTransform(v: Driver.Value)
    ensures Embed(Transform(v)) == Flatten(v)
  {
    match v
    case ListValue(items) =>
      var e := Embed(Transform(v));
      forall i | 0 <= i < |items| ensures e.items[i] == Flatten(v).items[i] {
        EmbedTransform(items[i]);
      }
    case MapLike(_, p) =>
      var e := Embed(Transform(v));
      forall k | k in p ensures e.properties[k] == Flatten(v).properties[k] {
        EmbedTransform(p[k]);
      }
    case _ =>
  }

  /** Two driver values transform alike exactly when they agree once their
      nodes and relationships are flattened into maps. */
  lemma TransformAgreesIffFlattenAgrees(a: Driver.Value, b: Driver.Value)
    ensures Transform(a) == Transform(b) <==> Flatten(a) == Flatten(b)
  {
    EmbedTransform(a);
    EmbedTransform(b);
    TransformEmbed(Transform(a));
    TransformEmbed(Transform(b));
  }

  /** A property stored as `NullValue` survives `asMap` as a `null` entry,
      while an absent property has no entry at all. */
  lemma NullPropertySurvives(c: Cursor, key: string)
    requires Keyed(c.value)
    ensures AsMap(c).Success?
    ensures key in AsMap(c).value <==> key in Properties(c.value)
    ensures key in Properties(c.value) && Properties(c.value)[key] == NullValue
         ==> AsMap(c).value[key] == NNull
  {
  }

  /** Reading a property the entity does not have is a null read, not an
      error: the nullable accessor gives null and the non-null one throws
      `NullPointerException`. */
  lemma AbsentPropertyReadsNull(c: Cursor, key: string, kind: Kind)
    requires Keyed(c.value) && key !in Properties(c.value)
    ensures GetOrNullAt(c, key, kind) == Success(None)
    ensures GetAt(c, key, kind) == Failure(NullPointer)
  {
  }

  /** `asSequence().map(Cursor::asMap)` over a list of entities or maps is
      the list `transform` builds from the whole value. */
  lemma AsSequenceThenAsMap(c: Cursor)
    requires c.value.ListValue?
    requires forall i | 0 <= i < |c.value.items| :: Keyed(c.value.items[i])
    ensures forall i | 0 <= i < |AsSequence(c).value| ::
      NMap(AsMap(AsSequence(c).value[i]).value) == Transform(c.value).elements[i]
  {
  }
}
