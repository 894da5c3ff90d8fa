/** The JVM scalar types that cross the serializers and the cursor.

    Numbers are carried, never computed with: integers keep their declared
    width as a subset type, and floating-point values are opaque bit patterns.
    The java.time values are represented by the text the java.time formatter
    renders for them; calendar formatting itself is not part of this model. */
module Jvm {

  /** Kotlin `Short`, `Int` and `Long`: two's-complement integers of 16, 32 and 64 bits. */
  type Int16 = x: int | -0x8000 <= x < 0x8000
  type Int32 = x: int | -0x8000_0000 <= x < 0x8000_0000
  type Int64 = x: int | -0x8000_0000_0000_0000 <= x < 0x8000_0000_0000_0000

  /** Kotlin `Float` and `Double`, only ever passed through. */
  datatype Float32 = Float32(bits32: bv32)
  datatype Float64 = Float64(bits64: bv64)

  /** `java.time.OffsetTime`, seen through its `ISO_OFFSET_TIME` rendering. */
  datatype OffsetTime = OffsetTime(isoOffsetTime: string)

  /** `java.time.OffsetDateTime`, seen through its `ISO_OFFSET_DATE_TIME` rendering. */
  datatype OffsetDateTime = OffsetDateTime(isoOffsetDateTime: string)

  /** `java.time.ZonedDateTime`: the offset date-time it denotes (its
      `toOffsetDateTime()`) together with its zone region, which the
      `ISO_OFFSET_DATE_TIME` pattern does not print. */
  datatype ZonedDateTime = ZonedDateTime(atOffset: OffsetDateTime, zone: string)

  /** `java.time.Instant`, seen through its `toString()` rendering. */
  datatype Instant = Instant(text: string)

  /** `time.format(DateTimeFormatter.ISO_OFFSET_TIME)`. The ISO text
      parses back to the same time. */
  function FormatOffsetTime(t: OffsetTime): (r: string)
    ensures OffsetTime(r) == t
  {
    t.isoOffsetTime
  }

  /** `time.format(DateTimeFormatter.ISO_OFFSET_DATE_TIME)` on an
      OffsetDateTime. The ISO text parses back to the same date-time. */
  function FormatOffsetDateTime(t: OffsetDateTime): (r: string)
    ensures OffsetDateTime(r) == t
  {
    t.isoOffsetDateTime
  }

  /** `time.format(DateTimeFormatter.ISO_OFFSET_DATE_TIME)` on a ZonedDateTime:
      the same pattern, so only the offset date-time is printed. The text
      parses back to that offset date-time, not to the zoned value. */
  function FormatZonedDateTime(t: ZonedDateTime): (r: string)
    ensures OffsetDateTime(r) == t.atOffset
  {
    FormatOffsetDateTime(t.atOffset)
  }

  /** `time.toString()` on an Instant. The ISO text parses back to the
      same instant. */
  function FormatInstant(t: Instant): (r: string)
    ensures Instant(r) == t
  {
    t.text
  }

  /** Two zoned date-times print alike exactly when they denote the same
      offset date-time: the zone region is never printed. */
  lemma ZonedTextIgnoresZone(a: ZonedDateTime, b: ZonedDateTime)
    ensures FormatZonedDateTime(a) == FormatZonedDateTime(b) <==> a.atOffset == b.atOffset
  {
  }
}
