/** Application-side values: what a caller may put into a parameter map
    (Kotlin `Any?`), and the string-keyed maps the serializers read and write.

    Kotlin's `mapOf`/`mapValues`/`mapKeys` build insertion-ordered maps, so a
    map is modelled as an ordered association list. */
module AppValues {
  import opened Wrappers
  import Jvm

  /** A key of a nested `Map<*, *>`. Strings are kept as they are; any other
      key object (null included) is seen only through its `toString()`, with
      `identity` standing for the object's equality so that two distinct keys
      may render to the same text. */
  datatype Key = StrKey(text: string) | OtherKey(identity: nat, rendering: string)

  /** `key.toString()`. */
  function KeyText(k: Key): string
  {
    match k
    case StrKey(s) => s
    case OtherKey(_, r) => r
  }

  /** A Kotlin `Any?` as the serializers classify it. `Other` is any object of
      a class neither serializer names (a domain object, a `LocalDate`, ...). */
  datatype Value =
    | Null
    | Short(s16: Jvm.Int16)
    | Int(i32: Jvm.Int32)
    | Long(i64: Jvm.Int64)
    | Float(f32: Jvm.Float32)
    | Double(f64: Jvm.Float64)
    | Char(ch: char)
    | Str(str: string)
    | Bool(b: bool)
    | OffsetTime(ot: Jvm.OffsetTime)
    | OffsetDateTime(odt: Jvm.OffsetDateTime)
    | ZonedDateTime(zdt: Jvm.ZonedDateTime)
    | Instant(inst: Jvm.Instant)
    | Enum(enumClass: string, name: string)
    | Collection(items: seq<Value>)
    | Dict(entries: seq<(Key, Value)>)
    | Other(typeName: string, identity: nat)

  /** The values the driver accepts as they are: Short, Int, Long, Float,
      Double, Char, String and Boolean. */
  predicate Primitive(v: Value)
  {
    v.Short? || v.Int? || v.Long? || v.Float? || v.Double? || v.Char? || v.Str? || v.Bool?
  }

  /** The four java.time kinds either serializer knows about. */
  predicate Temporal(v: Value)
  {
    v.OffsetTime? || v.OffsetDateTime? || v.ZonedDateTime? || v.Instant?
  }

  /** A `Map<String, Any?>` of query parameters, in iteration order. */
  type Params = seq<(string, Value)>

  function Keys(p: Params): seq<string>
  {
    seq(|p|, i requires 0 <= i < |p| => p[i].0)
  }

  function KeySet(p: Params): set<string>
  {
    set i | 0 <= i < |p| :: p[i].0
  }

  function ValueSet(p: Params): set<Value>
  {
    set i | 0 <= i < |p| :: p[i].1
  }

  predicate DistinctKeys(p: Params)
  {
    forall i, j | 0 <= i < j < |p| :: p[i].0 != p[j].0
  }

  /** Position of key `k` in `p`, if present. */
  function IndexOf(p: Params, k: string): (r: Option<nat>)
    ensures r.Some? ==> r.value < |p| && p[r.value].0 == k
    ensures r.None? <==> k !in KeySet(p)
  {
    if p == [] then None
    else if p[|p| - 1].0 == k then Some(|p| - 1)
    else
      var r := IndexOf(p[..|p| - 1], k);
      assert KeySet(p) == KeySet(p[..|p| - 1]) + {p[|p| - 1].0} by {
        forall x | x in KeySet(p) ensures x in KeySet(p[..|p| - 1]) + {p[|p| - 1].0} {
          var i :| 0 <= i < |p| && p[i].0 == x;
          if i < |p| - 1 { assert p[..|p| - 1][i] == p[i]; }
        }
      }
      r
  }

  /** In a map with distinct keys, the key at position `i` is found at `i`. */
  lemma IndexOfDistinct(p: Params, i: nat)
    requires DistinctKeys(p) && i < |p|
    ensures IndexOf(p, p[i].0) == Some(i)
  {
    assert p[i].0 in KeySet(p);
  }

  /** `map[k]` on a Kotlin map: the value bound to `k`, or null when absent. */
  function Lookup(p: Params, k: string): Option<Value>
  {
    match IndexOf(p, k)
    case Some(i) => Some(p[i].1)
    case None => None
  }

  /** `LinkedHashMap.put`: rebinds an existing key in place, or appends a new one. */
  function Put(p: Params, k: string, v: Value): (r: Params)
    requires DistinctKeys(p)
    ensures DistinctKeys(r)
  {
    match IndexOf(p, k)
    case Some(i) =>
      assert forall j | 0 <= j < |p| :: p[i := (k, v)][j].0 == p[j].0;
      p[i := (k, v)]
    case None =>
      p + [(k, v)]
  }

  /** `put` binds `k` to `v`, keeps an existing key at its position or
      appends a new one, and leaves every other key's binding alone. */
  lemma PutSpec(p: Params, k: string, v: Value)
    requires DistinctKeys(p)
    ensures Keys(Put(p, k, v)) == if k in KeySet(p) then Keys(p) else Keys(p) + [k]
    ensures KeySet(Put(p, k, v)) == KeySet(p) + {k}
    ensures ValueSet(Put(p, k, v)) <= ValueSet(p) + {v}
    ensures Lookup(Put(p, k, v), k) == Some(v)
    ensures forall k' | k' != k :: Lookup(Put(p, k, v), k') == Lookup(p, k')
  {
    PutKeys(p, k, v);
    PutKeySet(p, k, v);
    PutLookup(p, k, v);
  }

  /** `put` keeps the key order: a rebound key stays where it was, a new key
      goes last. */
  lemma PutKeys(p: Params, k: string, v: Value)
    requires DistinctKeys(p)
    ensures Keys(Put(p, k, v)) == if k in KeySet(p) then Keys(p) else Keys(p) + [k]
  {
  }

  /** `put` adds exactly `k` to the key set. */
  lemma PutKeySet(p: Params, k: string, v: Value)
    requires DistinctKeys(p)
    ensures KeySet(Put(p, k, v)) == KeySet(p) + {k}
  {
    var r := Put(p, k, v);
    match IndexOf(p, k)
    case Some(i) =>
      assert r == p[i := (k, v)];
      assert forall j | 0 <= j < |r| :: r[j].0 == p[j].0;
      assert KeySet(r) == KeySet(p);
    case None =>
      assert r == p + [(k, v)];
      assert r[|p|].0 == k;
      forall x | x in KeySet(r) ensures x in KeySet(p) + {k} {
        var j :| 0 <= j < |r| && r[j].0 == x;
        if j < |p| { assert r[j] == p[j]; }
      }
      forall x | x in KeySet(p) ensures x in KeySet(r) {
        var j :| 0 <= j < |p| && p[j].0 == x;
        assert r[j] == p[j];
      }
  }

  /** `put` binds `k` to `v` and leaves every other key's binding alone. */
  lemma PutLookup(p: Params, k: string, v: Value)
    requires DistinctKeys(p)
    ensures Lookup(Put(p, k, v), k) == Some(v)
    ensures forall k' | k' != k :: Lookup(Put(p, k, v), k') == Lookup(p, k')
  {
    var r := Put(p, k, v);
    match IndexOf(p, k)
    case Some(i) =>
      assert r == p[i := (k, v)];
      IndexOfDistinct(r, i);
      forall k' | k' != k ensures Lookup(r, k') == Lookup(p, k') {
        if k' in KeySet(p) {
          var j :| 0 <= j < |p| && p[j].0 == k';
          IndexOfDistinct(p, j);
          IndexOfDistinct(r, j);
        }
      }
    case None =>
      assert r == p + [(k, v)];
      IndexOfDistinct(r, |p|);
      forall k' | k' != k ensures Lookup(r, k') == Lookup(p, k') {
        if k' in KeySet(p) {
          var j :| 0 <= j < |p| && p[j].0 == k';
          IndexOfDistinct(p, j);
          assert r[j] == p[j];
          IndexOfDistinct(r, j);
        }
      }
  }

  /** The set of key texts of a nested map. */
  function KeyTexts(es: seq<(Key, Value)>): set<string>
  {
    set i | 0 <= i < |es| :: KeyText(es[i].0)
  }

  /** The values of a nested map. */
  function EntryValues(es: seq<(Key, Value)>): set<Value>
  {
    set i | 0 <= i < |es| :: es[i].1
  }

  /** Kotlin `mapKeys { it.key.toString() }`: every key becomes its text. Two
      keys with the same text collapse into one entry, which keeps the position
      of the first and the value of the last. */
  function MapKeys(es: seq<(Key, Value)>): (r: Params)
    ensures DistinctKeys(r)
  {
    if es == [] then []
    else Put(MapKeys(es[..|es| - 1]), KeyText(es[|es| - 1].0), es[|es| - 1].1)
  }

  /** `mapKeys` yields exactly the key texts, and only values of the input. */
  lemma MapKeysSpec(es: seq<(Key, Value)>)
    ensures KeySet(MapKeys(es)) == KeyTexts(es)
    ensures ValueSet(MapKeys(es)) <= EntryValues(es)
  {
    MapKeysKeySet(es);
    MapKeysValueSet(es);
  }

  lemma {:induction false} MapKeysKeySet(es: seq<(Key, Value)>)
    ensures KeySet(MapKeys(es)) == KeyTexts(es)
  {
    if es != [] {
      var n := |es| - 1;
      MapKeysKeySet(es[..n]);
      PutKeySet(MapKeys(es[..n]), KeyText(es[n].0), es[n].1);
      forall x | x in KeyTexts(es) ensures x in KeyTexts(es[..n]) + {KeyText(es[n].0)} {
        var i :| 0 <= i < |es| && KeyText(es[i].0) == x;
        if i < n { assert es[..n][i] == es[i]; }
      }
    }
  }

  lemma {:induction false} MapKeysValueSet(es: seq<(Key, Value)>)
    ensures ValueSet(MapKeys(es)) <= EntryValues(es)
  {
    if es != [] {
      var n := |es| - 1;
      MapKeysValueSet(es[..n]);
      PutSpec(MapKeys(es[..n]), KeyText(es[n].0), es[n].1);
      assert EntryValues(es[..n]) <= EntryValues(es) by {
        forall x | x in EntryValues(es[..n]) ensures x in EntryValues(es) {
          var i :| 0 <= i < n && es[..n][i].1 == x;
        }
      }
    }
  }

  /** Reference reading of a nested map under text keys: the value of the last
      entry whose key renders as `t`. */
  function LastValue(es: seq<(Key, Value)>, t: string): Option<Value>
  {
    if es == [] then None
    else if KeyText(es[|es| - 1].0) == t then Some(es[|es| - 1].1)
    else LastValue(es[..|es| - 1], t)
  }

  /** After `mapKeys`, the entry under text `t` holds the value of the last
      original entry whose key renders as `t`. */
  lemma {:induction false} MapKeysLastWins(es: seq<(Key, Value)>, t: string)
    ensures Lookup(MapKeys(es), t) == LastValue(es, t)
  {
    if es != [] {
      var n := |es| - 1;
      MapKeysLastWins(es[..n], t);
      PutLookup(MapKeys(es[..n]), KeyText(es[n].0), es[n].1);
    }
  }

  /** A nested map whose keys are already distinct strings, as a serializer
      produces it. */
  predicate StringKeyed(es: seq<(Key, Value)>)
  {
    && (forall i | 0 <= i < |es| :: es[i].0.StrKey?)
    && (forall i, j | 0 <= i < j < |es| :: es[i].0 != es[j].0)
  }

  /** A string-keyed map stored back as a nested-map value. */
  function AsEntries(p: Params): (r: seq<(Key, Value)>)
    ensures |r| == |p|
    ensures forall i | 0 <= i < |p| :: r[i] == (StrKey(p[i].0), p[i].1)
  {
    seq(|p|, i requires 0 <= i < |p| => (StrKey(p[i].0), p[i].1))
  }

  /** A nested map with distinct string keys is unchanged by `mapKeys`. */
  lemma {:induction false} MapKeysOfStringKeyed(p: Params)
    requires DistinctKeys(p)
    ensures MapKeys(AsEntries(p)) == p
  {
    if p != [] {
      var n := |p| - 1;
      assert AsEntries(p)[..n] == AsEntries(p[..n]);
      MapKeysOfStringKeyed(p[..n]);
      assert p[n].0 !in KeySet(p[..n]);
      assert p[..n] + [p[n]] == p;
    }
  }

  /** `AsEntries` is exactly the string-keyed maps with distinct keys. */
  lemma StringKeyedAsEntries(p: Params)
    ensures StringKeyed(AsEntries(p)) <==> DistinctKeys(p)
  {
  }

  /** Every string-keyed nested map is the image of its own text-keyed reading. */
  lemma StringKeyedIsAsEntries(es: seq<(Key, Value)>)
    requires StringKeyed(es)
    ensures AsEntries(Texts(es)) == es
    ensures DistinctKeys(Texts(es))
  {
  }

  /** The text-keyed reading of a nested map whose keys are strings. */
  function Texts(es: seq<(Key, Value)>): (r: Params)
    ensures |r| == |es|
    ensures forall i | 0 <= i < |es| :: r[i] == (KeyText(es[i].0), es[i].1)
  {
    seq(|es|, i requires 0 <= i < |es| => (KeyText(es[i].0), es[i].1))
  }
}
