/** `NeoQuery.serialize`: the strict, one-level parameter serializer used
    by `submit`. It accepts a closed list of kinds at top level and a smaller
    one inside a top-level collection, and throws
    `UnsupportedParameterTypeException` on anything else. */
module NeoQuery {
  import opened Wrappers
  import opened AppValues
  import Jvm
  import DefaultNeoSerializer

  /** `UnsupportedParameterTypeException`, carrying the value it names. */
  datatype Error = UnsupportedParameterType(offender: Value)

  /** The kinds `transform` accepts inside a collection. Instant is not among
      them, although it is accepted at top level. */
  predicate ElementSupported(v: Value)
  {
    v.Null? || Primitive(v) || v.OffsetTime? || v.OffsetDateTime? || v.Enum?
  }

  /** The kinds `serialize` accepts at top level. ZonedDateTime and maps are
      not among them. */
  predicate Supported(v: Value)
  {
    || v.Null? || Primitive(v) || v.OffsetTime? || v.OffsetDateTime? || v.Instant? || v.Enum?
    || (v.Collection? && forall i | 0 <= i < |v.items| :: ElementSupported(v.items[i]))
  }

  /** A value the driver takes as it is. */
  predicate PassThroughScalar(v: Value)
  {
    v.Null? || Primitive(v)
  }

  /** What a successful strict serialization produces: a scalar, or a flat
      list of scalars. */
  predicate Flat(v: Value)
  {
    PassThroughScalar(v) || (v.Collection? && forall i | 0 <= i < |v.items| :: PassThroughScalar(v.items[i]))
  }

  /** `transform`'s per-element dispatch. */
  function TransformElement(v: Value): (r: Result<Value, Error>)
    ensures r.Success? <==> ElementSupported(v)
    ensures r.Success? ==> PassThroughScalar(r.value)
    ensures r.Failure? ==> r.error == UnsupportedParameterType(v)
  {
    if v.Null? then Success(Null)
    else if Primitive(v) then Success(v)
    else if v.OffsetTime? then Success(Str(Jvm.FormatOffsetTime(v.ot)))
    else if v.OffsetDateTime? then Success(Str(Jvm.FormatOffsetDateTime(v.odt)))
    else if v.Enum? then Success(Str(v.name))
    else Failure(UnsupportedParameterType(v))
  }

  /** `items[i]` is the first element `transform` rejects. */
  predicate FirstRejected(items: seq<Value>, i: nat)
  {
    && i < |items|
    && !ElementSupported(items[i])
    && forall j | 0 <= j < i :: ElementSupported(items[j])
  }

  /** `transform(list)`: `list.map { ... }`, which stops at the first
      element it rejects. */
  function Transform(items: seq<Value>): (r: Result<seq<Value>, Error>)
    ensures r.Success? <==> forall i | 0 <= i < |items| :: ElementSupported(items[i])
    ensures r.Success? ==> |r.value| == |items|
    ensures r.Success? ==> forall i | 0 <= i < |items| :: TransformElement(items[i]) == Success(r.value[i])
    ensures r.Failure? ==> exists i: nat :: FirstRejected(items, i) && r.error == UnsupportedParameterType(items[i])
  {
    if items == [] then Success([])
    else
      var head := TransformElement(items[0]);
      if head.Failure? then
        assert FirstRejected(items, 0);
        Failure(head.error)
      else
        var tail := Transform(items[1..]);
        if tail.Failure? then
          ghost var i: nat :| FirstRejected(items[1..], i) && tail.error == UnsupportedParameterType(items[1..][i]);
          assert FirstRejected(items, i + 1);
          Failure(tail.error)
        else
          Success([head.value] + tail.value)
  }

  /** `serialize`'s per-value dispatch. */
  function SerializeValue(v: Value): (r: Result<Value, Error>)
    ensures r.Success? <==> Supported(v)
    ensures r.Success? ==> Flat(r.value)
    ensures r.Failure? && !v.Collection? ==> r.error == UnsupportedParameterType(v)
    ensures r.Failure? && v.Collection? ==>
      exists i: nat :: FirstRejected(v.items, i) && r.error == UnsupportedParameterType(v.items[i])
  {
    if v.Null? then Success(Null)
    else if Primitive(v) then Success(v)
    else if v.OffsetTime? then Success(Str(Jvm.FormatOffsetTime(v.ot)))
    else if v.OffsetDateTime? then Success(Str(Jvm.FormatOffsetDateTime(v.odt)))
    else if v.Instant? then Success(Str(Jvm.FormatInstant(v.inst)))
    else if v.Enum? then Success(Str(v.name))
    else if v.Collection? then
      var out :- Transform(v.items);
      Success(Collection(out))
    else Failure(UnsupportedParameterType(v))
  }

  /** `p[i]` is the first parameter `serialize` rejects. */
  predicate FirstUnsupported(p: Params, i: nat)
  {
    && i < |p|
    && !Supported(p[i].1)
    && forall j | 0 <= j < i :: Supported(p[j].1)
  }

  /** `serialize(parameters)`: `mapValues` in iteration order, so the first
      unsupported parameter's exception escapes. */
  function Serialize(p: Params): (r: Result<Params, Error>)
    ensures r.Success? <==> forall i | 0 <= i < |p| :: Supported(p[i].1)
    ensures r.Success? ==> Keys(r.value) == Keys(p)
    ensures r.Success? ==> forall i | 0 <= i < |p| :: SerializeValue(p[i].1) == Success(r.value[i].1)
    ensures r.Failure? ==> exists i: nat :: FirstUnsupported(p, i) && SerializeValue(p[i].1) == Failure(r.error)
  {
    if p == [] then Success([])
    else
      var head := SerializeValue(p[0].1);
      if head.Failure? then
        assert FirstUnsupported(p, 0);
        Failure(head.error)
      else
        var tail := Serialize(p[1..]);
        if tail.Failure? then
          ghost var i: nat :| FirstUnsupported(p[1..], i) && SerializeValue(p[1..][i].1) == Failure(tail.error);
          assert FirstUnsupported(p, i + 1);
          Failure(tail.error)
        else
          var r := [(p[0].0, head.value)] + tail.value;
          assert Keys(r) == Keys(p) by {
            assert Keys(tail.value) == Keys(p[1..]);
            forall i | 0 <= i < |p| ensures Keys(r)[i] == Keys(p)[i] {
              if i > 0 { assert Keys(r)[i] == Keys(tail.value)[i - 1]; }
            }
          }
          Success(r)
  }

  /** An element `transform` accepts is rewritten as the permissive
      serializer rewrites it. */
  lemma ElementAgreesWithDefault(v: Value)
    requires ElementSupported(v)
    ensures TransformElement(v) == Success(DefaultNeoSerializer.SerializeValue(v))
  {
  }

  /** Whatever the strict serializer accepts, it serializes exactly as the
      permissive one does, element by element. */
  lemma {:induction false} AgreesWithDefaultValue(v: Value)
    requires Supported(v)
    ensures SerializeValue(v) == Success(DefaultNeoSerializer.SerializeValue(v))
  {
    if v.Collection? {
      var out := Transform(v.items).value;
      var expected := DefaultNeoSerializer.SerializeValue(v);
      DefaultNeoSerializer.SerializeCollection(v.items);
      assert |out| == |expected.items|;
      forall i | 0 <= i < |out| ensures out[i] == expected.items[i] {
        assert TransformElement(v.items[i]) == Success(out[i]);
        ElementAgreesWithDefault(v.items[i]);
      }
      assert out == expected.items;
      assert SerializeValue(v) == Success(Collection(out));
    }
  }

  /** On success, `NeoQuery.serialize` and `DefaultNeoSerializer.serialize`
      return the same map. */
  lemma AgreesWithDefault(p: Params)
    requires Serialize(p).Success?
    ensures Serialize(p).value == DefaultNeoSerializer.Serialize(p)
  {
    var r := Serialize(p).value;
    var d := DefaultNeoSerializer.Serialize(p);
    assert |r| == |Keys(r)| == |Keys(p)| == |d|;
    forall i | 0 <= i < |p| ensures r[i] == d[i] {
      AgreesWithDefaultValue(p[i].1);
      assert r[i].0 == Keys(r)[i] == Keys(d)[i] == d[i].0;
    }
  }

  /** A map of nulls and primitives is its own strict serialization. */
  lemma {:induction false} PrimitivesUnchanged(p: Params)
    requires forall i | 0 <= i < |p| :: PassThroughScalar(p[i].1)
    ensures Serialize(p) == Success(p)
  {
    if p != [] {
      PrimitivesUnchanged(p[1..]);
      assert [p[0]] + p[1..] == p;
    }
  }

  /** `transform` reports exactly its first rejected element. */
  lemma {:induction false} FirstRejectedReported(items: seq<Value>, i: nat)
    requires FirstRejected(items, i)
    ensures Transform(items) == Failure(UnsupportedParameterType(items[i]))
  {
    if i > 0 {
      assert FirstRejected(items[1..], i - 1);
      FirstRejectedReported(items[1..], i - 1);
    }
  }

  /** `serialize` reports exactly its first unsupported parameter. */
  lemma {:induction false} FirstUnsupportedReported(p: Params, i: nat)
    requires FirstUnsupported(p, i)
    ensures Serialize(p) == Failure(SerializeValue(p[i].1).error)
  {
    if i > 0 {
      assert FirstUnsupported(p[1..], i - 1);
      FirstUnsupportedReported(p[1..], i - 1);
    }
  }

  /** Instant is accepted at top level but rejected inside a collection. */
  lemma InstantOnlyAtTopLevel(t: Jvm.Instant)
    ensures SerializeValue(Instant(t)) == Success(Str(t.text))
    ensures SerializeValue(Collection([Instant(t)])) == Failure(UnsupportedParameterType(Instant(t)))
  {
    FirstRejectedReported([Instant(t)], 0);
  }

  /** A top-level collection is flat: a nested collection or a map inside it
      is rejected, and the rejection names the first such element. */
  lemma NestedContainerRejected(items: seq<Value>, i: nat)
    requires i < |items| && (items[i].Collection? || items[i].Dict?)
    requires forall j | 0 <= j < i :: ElementSupported(items[j])
    ensures SerializeValue(Collection(items)) == Failure(UnsupportedParameterType(items[i]))
  {
    FirstRejectedReported(items, i);
  }

  /** A ZonedDateTime or map parameter always makes `serialize` throw, naming
      that parameter when no earlier one is unsupported. */
  lemma ZonedDateTimeOrMapRejected(p: Params, i: nat)
    requires i < |p| && (p[i].1.ZonedDateTime? || p[i].1.Dict?)
    ensures Serialize(p).Failure?
    ensures (forall j | 0 <= j < i :: Supported(p[j].1))
         ==> Serialize(p) == Failure(UnsupportedParameterType(p[i].1))
  {
    if forall j | 0 <= j < i :: Supported(p[j].1) {
      FirstUnsupportedReported(p, i);
    }
  }

  /** A list of maps, as `people.map(Person::destruct)` builds it, is rejected
      at its first map. */
  lemma ListOfMapsRejected(name: string, people: seq<Value>)
    requires |people| > 0 && forall j | 0 <= j < |people| :: people[j].Dict?
    ensures Serialize([("companyName", Str(name)), ("people", Collection(people))])
         == Failure(UnsupportedParameterType(people[0]))
  {
    NestedContainerRejected(people, 0);
    var p := [("companyName", Str(name)), ("people", Collection(people))];
    assert FirstUnsupported(p, 1);
    FirstUnsupportedReported(p, 1);
  }
}
