# kotlin-neo4j in Dafny

A model of the value-handling core of kotlin-neo4j, a thin Kotlin layer over
the Neo4j Java driver (1.x):

- **`DefaultNeoSerializer`** turns a Kotlin parameter map into values the
  driver accepts. It never throws on finite, acyclic values: java.time values become ISO-8601 text, enum
  constants their name, collections and nested maps are rewritten at every
  depth (nested map keys become their `toString()`), and anything else is
  handed over unchanged.
- **`NeoQuery.serialize`** does the same job strictly and one level deep: it
  accepts a closed list of kinds (fewer inside a collection) and throws
  `UnsupportedParameterTypeException` for the first parameter it cannot
  handle.
- **`Cursor`** wraps one driver `Value` read back from a query: nullable and
  non-null scalar accessors (by key and on the value itself), `unwrap`,
  `isNull`, `asMap`/`asMapOrNull`, `asSequence`, and the recursive `transform`
  that turns driver values into plain Kotlin lists and maps.

Files:

| file | module | contents |
|---|---|---|
| `wrappers.dfy` | `Wrappers` | `Option`, `Result` |
| `jvm.dfy` | `Jvm` | integer widths, opaque floats, java.time values seen through their formatted text |
| `app_values.dfy` | `AppValues` | Kotlin `Any?` parameter values; insertion-ordered maps; `LinkedHashMap.put` and `mapKeys` |
| `default_serializer.dfy` | `DefaultNeoSerializer` | the permissive serializer and its properties |
| `neo_query.dfy` | `NeoQuery` | the strict serializer, its rejections, its agreement with the permissive one |
| `driver.dfy` | `Driver` | the driver's `Value`, `value[key]`, and scalar coercions |
| `cursor.dfy` | `Cursors` | `Cursor` and `transform` |

Modelling choices:

- Kotlin maps built by `mapOf`, `mapValues` and `mapKeys` iterate in
  insertion order, so parameter maps are association lists
  `seq<(string, Value)>` with distinct keys. This makes "the first unsupported
  parameter is the one reported" a precise statement.
- A nested `Map<*, *>` has keys of any type. A key is either a string or an
  other object known only by its identity and its `toString()` text, so two
  distinct keys may share a text. `mapKeys` then keeps one entry for that
  text, at the position of the first such key with the value of the last
  (`LinkedHashMap.put` semantics).
- The permissive serializer's nested-map case is defined as "serialize the
  values, then merge the keys", which terminates structurally;
  `SerializeDictAsWritten` proves it equal to the source's order
  (merge the keys, then serialize).
- The driver's maps and entity properties are unordered, so the driver side
  and the result of `transform` use Dafny `map`s.
- The cursor sees a node or a relationship only through its properties, and
  `transform` and `value[key]` treat maps, nodes and relationships alike. The
  three are one driver value `MapLike(shape, properties)`, with the shape
  kept for type names in errors; node identity, labels and relationship type
  are not modelled.
- A thrown exception is a `Failure`: `UnsupportedParameterType(offender)` in
  the strict serializer; `NullPointer` (Kotlin's `!!`) or
  `DriverError(cause)` for the cursor.
- The five scalar accessor families (`string`, `int`, `long`, `double`,
  `bool`) differ only in the driver coercion they call; each accessor shape is
  modelled once with a `Kind` argument selecting the coercion.

Where the code and the project's own tests or comments disagree, the model
follows the code:

- `NeoQuery.serialize` has no `ZonedDateTime` branch, so a `ZonedDateTime`
  parameter is rejected, although the test at
  `src/test/kotlin/github/etx/neo4j/NeoQueryTest.kt:105-121` expects it to be
  formatted. `ZonedDateTimeOrMapRejected` states the code's behaviour.
- `NeoQuery.serialize` has no `Map` branch and `transform` rejects maps inside
  a collection, so the list of maps passed at
  `src/test/kotlin/github/etx/neo4j/NeoQueryTest.kt:475` is rejected
  (`ListOfMapsRejected`).
- The class comment of `NeoQuery` lists `Instant` among the kinds a collection
  may hold, but `transform` has no `Instant` branch (`InstantOnlyAtTopLevel`).
- Reading a key a map, node or relationship does not have is not an error:
  the driver's `value[key]` returns its `NullValue`, so `unwrap` gives a null
  cursor and `stringOrNull(key)` gives null (`AbsentPropertyReadsNull`).

## Model

| member | source | states |
|---|---|---|
| DefaultNeoSerializer.ToNeo4jType | src/main/kotlin/github/etx/neo4j/DefaultNeoSerializer.kt:29-39 | temporals and enum constants become text; every other value, null included, is returned unchanged, and its result is fully serialized unless it is a collection or map |
| DefaultNeoSerializer.SerializeValue | src/main/kotlin/github/etx/neo4j/DefaultNeoSerializer.kt:41-49 | never fails; the result contains no temporal and no enum at any depth and nested maps are keyed by distinct strings; null, primitives and unknown objects come back unchanged; collections stay collections and maps stay maps |
| DefaultNeoSerializer.Serialize | src/main/kotlin/github/etx/neo4j/DefaultNeoSerializer.kt:18-27 | the output has exactly the input's keys in the same order; each key is bound to the serialization of its input value, an absent key stays absent; every output value is fully serialized |
| DefaultNeoSerializer.SerializedIsFixpoint | src/main/kotlin/github/etx/neo4j/DefaultNeoSerializer.kt:18-49 | a value already in serialized form is its own serialization |
| DefaultNeoSerializer.SerializeIdempotent | src/main/kotlin/github/etx/neo4j/DefaultNeoSerializer.kt:18-27 | serializing a parameter map twice gives the same map as serializing it once |
| DefaultNeoSerializer.FlatPrimitivesUnchanged | src/test/kotlin/github/etx/neo4j/DefaultNeoSerializerTest.kt:17-32 | a map of nulls, numbers, chars, strings and booleans is returned unchanged |
| Jvm.FormatOffsetTime | src/main/kotlin/github/etx/neo4j/DefaultNeoSerializer.kt:52-54 | the `ISO_OFFSET_TIME` text of a time parses back to that time (the same overload is at NeoQuery.kt:64-66) |
| Jvm.FormatOffsetDateTime | src/main/kotlin/github/etx/neo4j/DefaultNeoSerializer.kt:56-58 | the `ISO_OFFSET_DATE_TIME` text of an offset date-time parses back to it (the same overload is at NeoQuery.kt:68-70) |
| Jvm.FormatZonedDateTime | src/main/kotlin/github/etx/neo4j/DefaultNeoSerializer.kt:60-62 | a zoned date-time printed with `ISO_OFFSET_DATE_TIME` parses back to its offset date-time, not to the zoned value |
| Jvm.ZonedTextIgnoresZone | src/main/kotlin/github/etx/neo4j/DefaultNeoSerializer.kt:60-62 | two zoned date-times print alike if and only if they denote the same offset date-time |
| Jvm.FormatInstant | src/main/kotlin/github/etx/neo4j/DefaultNeoSerializer.kt:64-66 | `Instant.toString()` parses back to the same instant (the same overload is at NeoQuery.kt:73-75) |
| DefaultNeoSerializer.TextualValues | src/main/kotlin/github/etx/neo4j/DefaultNeoSerializer.kt:52-66 | OffsetTime, OffsetDateTime, ZonedDateTime and Instant become their formatter text; an enum constant becomes exactly its name |
| DefaultNeoSerializer.ZonedSerializesAsOffset | src/main/kotlin/github/etx/neo4j/DefaultNeoSerializer.kt:56-62 | a ZonedDateTime is written with the offset date-time pattern, so it reads as its offset date-time and its zone region is not printed |
| DefaultNeoSerializer.SerializeCollection | src/main/kotlin/github/etx/neo4j/DefaultNeoSerializer.kt:41-49 | a collection becomes a list of the same length whose i-th element is the serialization of the i-th input element |
| DefaultNeoSerializer.SerializeCollectionConcat | src/main/kotlin/github/etx/neo4j/DefaultNeoSerializer.kt:41-49 | serializing a concatenation is concatenating the serializations, so order is kept |
| DefaultNeoSerializer.SerializeCollectionPointwise | src/main/kotlin/github/etx/neo4j/DefaultNeoSerializer.kt:41-49 | each output element depends only on the input element at the same position |
| DefaultNeoSerializer.NestedMapKeysCoerced | src/main/kotlin/github/etx/neo4j/DefaultNeoSerializer.kt:23 | a nested map's output keys are exactly the `toString()` texts of its keys, and under each text sits the serialized value of the last entry whose key has that text |
| DefaultNeoSerializer.SerializeDictAsWritten | src/main/kotlin/github/etx/neo4j/DefaultNeoSerializer.kt:45 | the nested-map case equals serializing the map obtained by `mapKeys { it.key.toString() }`, the order the source writes |
| DefaultNeoSerializer.PutThenSerialize | src/main/kotlin/github/etx/neo4j/DefaultNeoSerializer.kt:23 | binding a key and then serializing the values equals serializing the values and then binding the serialized value |
| AppValues.PutSpec | src/main/kotlin/github/etx/neo4j/DefaultNeoSerializer.kt:23 | putting a key keeps an existing key at its position or appends a new one last, adds it to the key set, binds it to the new value, and leaves every other key's binding alone |
| AppValues.MapKeys | src/main/kotlin/github/etx/neo4j/DefaultNeoSerializer.kt:23 | `mapKeys` produces a map with distinct keys |
| AppValues.MapKeysSpec | src/main/kotlin/github/etx/neo4j/DefaultNeoSerializer.kt:23 | the keys after `mapKeys` are exactly the key texts, and every value comes from the input |
| AppValues.MapKeysLastWins | src/main/kotlin/github/etx/neo4j/DefaultNeoSerializer.kt:23 | after `mapKeys`, a text is bound to the value of the last entry whose key renders as that text |
| AppValues.MapKeysOfStringKeyed | src/main/kotlin/github/etx/neo4j/DefaultNeoSerializer.kt:23 | a map already keyed by distinct strings is unchanged by `mapKeys` |
| NeoQuery.TransformElement | src/main/kotlin/github/etx/neo4j/NeoQuery.kt:79-88 | an element is accepted exactly when it is null, a primitive, an OffsetTime, an OffsetDateTime or an enum; the result is a scalar; a rejection names the element |
| NeoQuery.Transform | src/main/kotlin/github/etx/neo4j/NeoQuery.kt:77-90 | succeeds exactly when every element is accepted, keeping length and order; a failure names the first rejected element |
| NeoQuery.SerializeValue | src/main/kotlin/github/etx/neo4j/NeoQuery.kt:49-60 | succeeds exactly on the supported kinds (a collection only when every element is accepted); the result is a scalar or a flat list of scalars; a rejected non-collection is named in the error, and a rejected collection reports its first rejected element |
| NeoQuery.Serialize | src/main/kotlin/github/etx/neo4j/NeoQuery.kt:46-62 | succeeds exactly when every parameter is supported, keeping keys and order; a failure is the error of the first unsupported parameter |
| NeoQuery.FirstRejectedReported | src/main/kotlin/github/etx/neo4j/NeoQuery.kt:77-90 | the error of `transform` is exactly the first element it does not accept |
| NeoQuery.FirstUnsupportedReported | src/main/kotlin/github/etx/neo4j/NeoQuery.kt:46-62 | the error of `serialize` is exactly that of the first unsupported parameter |
| NeoQuery.AgreesWithDefaultValue | src/main/kotlin/github/etx/neo4j/NeoQuery.kt:49-60 | on every value the strict serializer accepts, it gives the permissive serializer's result |
| NeoQuery.AgreesWithDefault | src/main/kotlin/github/etx/neo4j/NeoQuery.kt:46-62 | a successful strict serialization of a map equals the permissive serialization |
| NeoQuery.PrimitivesUnchanged | src/main/kotlin/github/etx/neo4j/NeoQuery.kt:50-53 | a map of nulls and primitives is accepted and returned unchanged |
| NeoQuery.InstantOnlyAtTopLevel | src/main/kotlin/github/etx/neo4j/NeoQuery.kt:56 | an Instant parameter becomes its text, but an Instant inside a collection is rejected |
| NeoQuery.NestedContainerRejected | src/main/kotlin/github/etx/neo4j/NeoQuery.kt:87 | a collection holding a collection or a map is rejected at the first such element |
| NeoQuery.ZonedDateTimeOrMapRejected | src/main/kotlin/github/etx/neo4j/NeoQuery.kt:59 | any map containing a ZonedDateTime or a map parameter fails, naming that parameter when nothing earlier is unsupported |
| NeoQuery.ListOfMapsRejected | src/test/kotlin/github/etx/neo4j/NeoQueryTest.kt:465-476 | the company-and-people parameter map of the test is rejected at the first person map |
| Driver.Field | src/main/kotlin/github/etx/neo4j/Cursor.kt:18-20 | `value[key]` succeeds exactly on maps, nodes and relationships and gives the bound value for a present key and the null value for an absent one; on anything else it fails naming the value's type |
| Driver.Coerce | src/main/kotlin/github/etx/neo4j/Cursor.kt:22-65 | a coercion succeeds exactly when the value has the requested type (and, for Int, fits 32 bits), and then carries the value's payload; otherwise it is a lossy or an uncoercible coercion |
| Cursors.Nullable | src/main/kotlin/github/etx/neo4j/Cursor.kt:8-14 | the driver's null value, and only it, reads as Kotlin null; any other value is kept |
| Cursors.IsNull | src/main/kotlin/github/etx/neo4j/Cursor.kt:16 | `isNull` holds exactly when `nullable()` reads the wrapped value as Kotlin null |
| Cursors.NotNull | src/main/kotlin/github/etx/neo4j/Cursor.kt:22 | `!!` turns null into a NullPointerException, passes a value, and propagates a failure |
| Cursors.ScalarOrNull | src/main/kotlin/github/etx/neo4j/Cursor.kt:23 | `nullable()?.asX()` is null exactly for the null value, a scalar of the requested kind carrying the value's payload when coercible, and otherwise exactly the driver's coercion error (`Uncoercible`, or `LossyCoercion` for an out-of-range `int`) |
| Cursors.GetOrNull | src/main/kotlin/github/etx/neo4j/Cursor.kt:22-65 | the lazy nullable accessors are null exactly on a null cursor, never throw NullPointerException, and succeed on a non-null cursor exactly when it is coercible; a failure is exactly the driver's coercion error |
| Cursors.Get | src/main/kotlin/github/etx/neo4j/Cursor.kt:22-65 | the lazy non-null accessors throw NullPointerException exactly on a null cursor and otherwise agree with the nullable accessor |
| Cursors.Unwrap | src/main/kotlin/github/etx/neo4j/Cursor.kt:18-20 | unwrapping succeeds exactly on maps, nodes and relationships, gives the bound value or a null cursor for an absent key, and otherwise fails with the driver's not-multi-valued error |
| Cursors.GetOrNullAt | src/main/kotlin/github/etx/neo4j/Cursor.kt:22-65 | a keyed nullable accessor equals unwrapping the key and reading the lazy nullable accessor |
| Cursors.GetAt | src/main/kotlin/github/etx/neo4j/Cursor.kt:22-65 | a keyed non-null accessor equals unwrapping the key and reading the lazy non-null accessor |
| Cursors.AbsentPropertyReadsNull | src/test/kotlin/github/etx/neo4j/NeoQueryTest.kt:154-167 | reading a property an entity lacks gives null from the nullable accessor and a NullPointerException from the non-null one |
| Cursors.Transform | src/main/kotlin/github/etx/neo4j/Cursor.kt:76-87 | null becomes null, lists become lists of the same length, and exactly the maps, nodes and relationships become maps with the same keys |
| Cursors.TransformEmbed | src/main/kotlin/github/etx/neo4j/Cursor.kt:76-87 | transforming the driver form of a plain value gives that value back |
| Cursors.EmbedTransform | src/main/kotlin/github/etx/neo4j/Cursor.kt:76-87 | the driver form of a transformed value is the value with every node and relationship replaced by its property map |
| Cursors.TransformAgreesIffFlattenAgrees | src/main/kotlin/github/etx/neo4j/Cursor.kt:76-87 | two values transform alike if and only if they agree once entities are flattened into maps |
| Cursors.AsMapOrNull | src/main/kotlin/github/etx/neo4j/Cursor.kt:68-70 | null exactly on a null cursor; a map exactly on a map, node or relationship, equal to its transform; otherwise the driver's uncoercible error |
| Cursors.AsMap | src/main/kotlin/github/etx/neo4j/Cursor.kt:67 | throws NullPointerException exactly on a null cursor; succeeds exactly on maps, nodes and relationships with `asMapOrNull`'s map; on any other non-null value rethrows `asMapOrNull`'s error |
| Cursors.NullPropertySurvives | src/test/kotlin/github/etx/neo4j/CursorTest.kt:56-63 | `asMap` keeps exactly the present keys, and a property stored as null is present with a null value |
| Cursors.AsSequence | src/main/kotlin/github/etx/neo4j/Cursor.kt:72-74 | succeeds exactly on a list, with one cursor per element in order; any other value, null included, is the driver's uncoercible error |
| Cursors.AsSequenceThenAsMap | src/test/kotlin/github/etx/neo4j/CursorTest.kt:46-53 | mapping `asMap` over `asSequence` of a list of entities gives the list `transform` builds from the whole value |

## Left out

- `NeoQuery.submit`, `CursorWrapper`, `NeoLogging` and `NeoUtil`: sessions,
  query execution, result streaming and logging are I/O against a database.
- `INeoSerializer`: an interface with one implementation; the permissive
  serializer is modelled directly.
- java.time formatting: a temporal value is represented by the text its
  formatter prints, so the calendar arithmetic of `ISO_OFFSET_TIME`,
  `ISO_OFFSET_DATE_TIME` and `Instant.toString()` is not modelled.
- Jvm.FormatOffsetTime, Jvm.FormatOffsetDateTime, Jvm.FormatInstant: their
  parse-back contracts hold by construction, because each value is
  represented by its text; the layout of that text is not modelled.
- Floating-point numbers are opaque bit patterns, only passed through.
- Inputs on which the permissive serializer does not return: a collection or
  map that contains itself (Kotlin recursion ends in `StackOverflowError`;
  model values are finite trees), a nested-map key whose `toString()` throws
  or loops (a key's text is given with the key), and a `Char` or string
  holding an unpaired UTF-16 surrogate (Dafny `char` is a Unicode scalar
  value, so such text cannot be built).
- Driver values for paths, points, byte arrays and temporal types are not
  modelled; `transform` reaches them only through `asObject()`.
- The text of exception messages (`"Unsupported type: ..."`) is not
  modelled; an error carries the offending value or the driver type name.
- `lazy` memoisation and thread safety of the lazy properties: a lazy
  property is modelled as a function of the wrapped value.
- Driver.Coerce: the driver converts between integers and floating-point
  values when no precision is lost (`asDouble` on an integer, `asInt` or
  `asLong` on a float); with floats as opaque bit patterns the model treats
  these as uncoercible, and only the exact driver type and the `Int` range
  check are modelled.
