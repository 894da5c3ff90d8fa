/** `DefaultNeoSerializer`: the permissive, fully recursive parameter
    serializer. It never fails: java.time values and enum constants become
    text, collections and nested maps are rewritten element by element, and
    every other value is handed to the driver unchanged. */
module DefaultNeoSerializer {
  import opened Wrappers
  import opened AppValues
  import Jvm

  /** `toNeo4jType`: temporals become their ISO-8601 text, an enum constant
      its name, and every other value passes through. */
  function ToNeo4jType(v: Value): (r: Value)
    ensures Temporal(v) || v.Enum? ==> r.Str?
    ensures !Temporal(v) && !v.Enum? ==> r == v
    ensures !r.Collection? && !r.Dict? ==> Serialized(r)
    ensures r.Collection? <==> v.Collection?
    ensures r.Dict? <==> v.Dict?
  {
    match v
    case OffsetTime(t) => Str(Jvm.FormatOffsetTime(t))
    case OffsetDateTime(t) => Str(Jvm.FormatOffsetDateTime(t))
    case ZonedDateTime(t) => Str(Jvm.FormatZonedDateTime(t))
    case Instant(t) => Str(Jvm.FormatInstant(t))
    case Enum(_, name) => Str(name)
    case _ => v
  }

  /** The shapes the serializer produces: no temporal, no enum, and nested
      maps keyed by distinct strings, at every depth. */
  predicate Serialized(v: Value)
  {
    && !Temporal(v)
    && !v.Enum?
    && (v.Collection? ==> forall i | 0 <= i < |v.items| :: Serialized(v.items[i]))
    && (v.Dict? ==> StringKeyed(v.entries) && forall i | 0 <= i < |v.entries| :: Serialized(v.entries[i].1))
  }

  /** Null, the primitives and unrecognised objects: what comes back unchanged. */
  predicate PassThrough(v: Value)
  {
    v.Null? || Primitive(v) || v.Other?
  }

  /** The per-value dispatch shared by `serialize` and `transform`: a
      collection is rewritten element-wise, a nested map has its keys turned
      into text and its values serialized, anything else goes through
      `toNeo4jType`. The nested-map case serializes values before merging
      keys; `SerializeDictAsWritten` shows this equals the source's order. */
  function SerializeValue(v: Value): (r: Value)
    ensures Serialized(r)
    ensures PassThrough(v) ==> r == v
    ensures v.Collection? <==> r.Collection?
    ensures v.Dict? <==> r.Dict?
    decreases v, 1
  {
    if v.Collection? then
      var out := seq(|v.items|, i requires 0 <= i < |v.items| => SerializeValue(v.items[i]));
      assert forall i | 0 <= i < |out| :: Serialized(out[i]);
      Collection(out)
    else if v.Dict? then
      var vs := SerializeEntries(v.entries);
      MergedIsSerialized(vs);
      Dict(AsEntries(MapKeys(vs)))
    else
      ToNeo4jType(v)
  }

  /** The values of a nested map serialized in place, keys and order kept. */
  function SerializeEntries(es: seq<(Key, Value)>): (r: seq<(Key, Value)>)
    ensures |r| == |es|
    ensures forall i | 0 <= i < |es| :: r[i] == (es[i].0, SerializeValue(es[i].1))
    ensures forall i | 0 <= i < |r| :: Serialized(r[i].1)
    decreases Dict(es), 0
  {
    seq(|es|, i requires 0 <= i < |es| => (es[i].0, SerializeValue(es[i].1)))
  }

  /** Merging the keys of a map whose values are serialized gives a
      serialized nested map. */
  lemma MergedIsSerialized(vs: seq<(Key, Value)>)
    requires forall i | 0 <= i < |vs| :: Serialized(vs[i].1)
    ensures Serialized(Dict(AsEntries(MapKeys(vs))))
  {
    var merged := MapKeys(vs);
    MergedValuesSerialized(vs);
    StringKeyedAsEntries(merged);
    var out := AsEntries(merged);
    assert forall i | 0 <= i < |out| :: out[i].1 == merged[i].1;
  }

  lemma MergedValuesSerialized(vs: seq<(Key, Value)>)
    requires forall i | 0 <= i < |vs| :: Serialized(vs[i].1)
    ensures forall i | 0 <= i < |MapKeys(vs)| :: Serialized(MapKeys(vs)[i].1)
  {
    var merged := MapKeys(vs);
    MapKeysSpec(vs);
    forall i | 0 <= i < |merged| ensures Serialized(merged[i].1) {
      assert merged[i].1 in ValueSet(merged);
      var j :| 0 <= j < |vs| && vs[j].1 == merged[i].1;
    }
  }

  /** `serialize(parameters)`: `mapValues` over the parameter map. */
  function Serialize(p: Params): (r: Params)
    ensures Keys(r) == Keys(p)
    ensures forall k :: Lookup(r, k) == (match Lookup(p, k)
                                        case Some(v) => Some(SerializeValue(v))
                                        case None => None)
    ensures forall i | 0 <= i < |r| :: Serialized(r[i].1)
  {
    var r := seq(|p|, i requires 0 <= i < |p| => (p[i].0, SerializeValue(p[i].1)));
    assert Keys(r) == Keys(p);
    SameKeysSameIndex(r, p);
    r
  }

  /** Maps with the same key sequence find every key at the same position. */
  lemma {:induction false} SameKeysSameIndex(p: Params, q: Params)
    requires Keys(p) == Keys(q)
    ensures forall k :: IndexOf(p, k) == IndexOf(q, k)
  {
    assert |p| == |Keys(p)| == |q|;
    if p != [] {
      var n := |p| - 1;
      assert p[n].0 == Keys(p)[n] == q[n].0;
      assert Keys(p[..n]) == Keys(p)[..n] == Keys(q)[..n] == Keys(q[..n]);
      SameKeysSameIndex(p[..n], q[..n]);
    }
  }

  /** Every serialized value is left alone by a second serialization. */
  lemma {:induction false} SerializedIsFixpoint(v: Value)
    requires Serialized(v)
    ensures SerializeValue(v) == v
    decreases v
  {
    match v
    case Collection(items) =>
      forall i | 0 <= i < |items| ensures SerializeValue(items[i]) == items[i] {
        SerializedIsFixpoint(items[i]);
      }
    case Dict(es) =>
      var vs := SerializeEntries(es);
      forall i | 0 <= i < |es| ensures vs[i] == es[i] {
        SerializedIsFixpoint(es[i].1);
      }
      assert vs == es;
      StringKeyedIsAsEntries(es);
      MapKeysOfStringKeyed(Texts(es));
    case _ =>
  }

  /** Serializing twice is serializing once. */
  lemma SerializeIdempotent(p: Params)
    ensures Serialize(Serialize(p)) == Serialize(p)
  {
    var once := Serialize(p);
    forall i | 0 <= i < |once| ensures SerializeValue(once[i].1) == once[i].1 {
      SerializedIsFixpoint(once[i].1);
    }
    assert Keys(Serialize(once)) == Keys(once);
  }

  /** A map of nulls and primitives is its own serialization. */
  lemma FlatPrimitivesUnchanged(p: Params)
    requires forall i | 0 <= i < |p| :: p[i].1.Null? || Primitive(p[i].1)
    ensures Serialize(p) == p
  {
    assert Keys(Serialize(p)) == Keys(p);
  }

  /** Collection rewriting keeps order: the serialization of a concatenation
      is the concatenation of the serializations. */
  lemma SerializeCollectionConcat(a: seq<Value>, b: seq<Value>)
    ensures SerializeValue(Collection(a + b)).items
         == SerializeValue(Collection(a)).items + SerializeValue(Collection(b)).items
  {
  }

  /** A collection becomes a list of the same length whose i-th element is the
      serialization of the i-th input element. */
  lemma SerializeCollection(items: seq<Value>)
    ensures |SerializeValue(Collection(items)).items| == |items|
    ensures forall i | 0 <= i < |items| ::
              SerializeValue(Collection(items)).items[i] == SerializeValue(items[i])
  {
  }

  /** The i-th element of a serialized collection depends only on the i-th
      input element. */
  lemma SerializeCollectionPointwise(a: seq<Value>, b: seq<Value>, i: nat)
    requires |a| == |b| && i < |a| && a[i] == b[i]
    ensures SerializeValue(Collection(a)).items[i] == SerializeValue(Collection(b)).items[i]
  {
  }

  /** A nested map's keys become their `toString()` text; under each text sits
      the serialization of the last original entry with that text. */
  lemma NestedMapKeysCoerced(es: seq<(Key, Value)>, t: string)
    ensures KeySet(Texts(SerializeValue(Dict(es)).entries)) == KeyTexts(es)
    ensures Lookup(Texts(SerializeValue(Dict(es)).entries), t)
         == (match LastValue(es, t)
             case Some(v) => Some(SerializeValue(v))
             case None => None)
  {
    var vs := SerializeEntries(es);
    var merged := MapKeys(vs);
    assert SerializeValue(Dict(es)).entries == AsEntries(merged);
    assert Texts(AsEntries(merged)) == merged;
    assert KeyTexts(vs) == KeyTexts(es) by {
      assert forall i | 0 <= i < |es| :: KeyText(vs[i].0) == KeyText(es[i].0);
    }
    MapKeysSpec(vs);
    MapKeysLastWins(vs, t);
    LastValueSerialized(es, t);
  }

  /** The last entry under a text, after serializing every value, is the
      serialization of the last entry under that text. */
  lemma {:induction false} LastValueSerialized(es: seq<(Key, Value)>, t: string)
    ensures LastValue(SerializeEntries(es), t)
         == (match LastValue(es, t)
             case Some(v) => Some(SerializeValue(v))
             case None => None)
  {
    var vs := SerializeEntries(es);
    if es != [] {
      var n := |es| - 1;
      assert vs[..n] == SerializeEntries(es[..n]);
      LastValueSerialized(es[..n], t);
    }
  }

  /** The source serializes a nested map as `serialize(value.mapKeys { it.key.toString() })`:
      first merge keys, then serialize values. `SerializeValue` does it the
      other way round; both orders give the same map. */
  lemma SerializeDictAsWritten(es: seq<(Key, Value)>)
    ensures SerializeValue(Dict(es)) == Dict(AsEntries(Serialize(MapKeys(es))))
  {
    MapKeysThenSerialize(es);
  }

  lemma {:induction false} MapKeysThenSerialize(es: seq<(Key, Value)>)
    ensures MapKeys(SerializeEntries(es))
         == Serialize(MapKeys(es))
  {
    var vs := SerializeEntries(es);
    if es != [] {
      var n := |es| - 1;
      assert vs[..n] == SerializeEntries(es[..n]);
      MapKeysThenSerialize(es[..n]);
      PutThenSerialize(MapKeys(es[..n]), KeyText(es[n].0), es[n].1);
    }
  }

  /** `put` commutes with serializing the values. */
  lemma PutThenSerialize(p: Params, k: string, v: Value)
    requires DistinctKeys(p)
    ensures DistinctKeys(Serialize(p))
    ensures Put(Serialize(p), k, SerializeValue(v)) == Serialize(Put(p, k, v))
  {
    var sp := Serialize(p);
    assert forall i | 0 <= i < |p| :: sp[i].0 == Keys(sp)[i] == Keys(p)[i] == p[i].0;
    SameKeysSameIndex(sp, p);
    match IndexOf(p, k)
    case Some(i) =>
      assert Keys(p[i := (k, v)]) == Keys(p);
    case None =>
      assert Keys(p + [(k, v)]) == Keys(p) + [k];
  }

  /** OffsetDateTime and ZonedDateTime share one text format, so a zoned
      date-time serializes exactly like the offset date-time it denotes and its
      zone region is dropped. */
  lemma ZonedSerializesAsOffset(z: Jvm.ZonedDateTime, zone: string)
    ensures SerializeValue(ZonedDateTime(z)) == SerializeValue(OffsetDateTime(z.atOffset))
    ensures SerializeValue(ZonedDateTime(z)) == SerializeValue(ZonedDateTime(z.(zone := zone)))
  {
  }

  /** Temporals become their formatted text, enum constants exactly their name. */
  lemma TextualValues(t: Jvm.OffsetTime, o: Jvm.OffsetDateTime, z: Jvm.ZonedDateTime,
                      i: Jvm.Instant, enumClass: string, name: string)
    ensures SerializeValue(OffsetTime(t)) == Str(t.isoOffsetTime)
    ensures SerializeValue(OffsetDateTime(o)) == Str(o.isoOffsetDateTime)
    ensures SerializeValue(ZonedDateTime(z)) == Str(z.atOffset.isoOffsetDateTime)
    ensures SerializeValue(Instant(i)) == Str(i.text)
    ensures SerializeValue(Enum(enumClass, name)) == Str(name)
  {
  }
}
