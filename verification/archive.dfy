/**
  The serialization archive, seen field by field. A stored record is the
  sequence of fields its `serialize` member writes, each class's fields
  preceded by the class version the archive carries for it. Decoding reads
  the fields back in the same order and hands over the unread remainder, so
  composite records decode by chaining the readers of their parts.
 */
module Archive {
  import opened Wrappers

  /** A `ptime`: either a point in time (seconds) or the default-constructed
      not-a-date-time value. */
  datatype PTime = NotADateTime | At(seconds: nat)

  datatype Field =
    | Version(v: nat)
    | IdField(id: nat)
    | Text(s: string)
    | Int(i: int)
    | Time(t: PTime)
    | Count(n: nat)

  /** The two kinds a `SerializationException` can report through `is`. */
  datatype SerializationExceptionType = UnknownException | UnknownVersion

  /** Why decoding stopped: a class version above 0, fields that do not
      match the expected layout, or an engine id missing from the registry. */
  datatype DecodeError =
    | UnknownSerializationVersion(version: nat)
    | ArchiveError
    | UnknownEngine(id: nat)
  {
    /** `SerializationException::is`: only a version error reports a kind. */
    predicate Is(t: SerializationExceptionType) {
      UnknownSerializationVersion? && t == UnknownVersion
    }
  }

  /** A decoded value and the fields left after it. */
  datatype Decoded<T> = Decoded(value: T, rest: seq<Field>)

  /** The header of a versioned class: versions above 0 are rejected and the
      offending version is reported. */
  function ReadClassVersion(a: seq<Field>): (r: Result<seq<Field>, DecodeError>)
    ensures r.Ok? <==> |a| > 0 && a[0] == Version(0)
    ensures r.Ok? ==> r.value == a[1..]
    ensures |a| > 0 && a[0].Version? && a[0].v > 0 ==>
              r.Err? && r.error.Is(UnknownVersion) && r.error.version == a[0].v
  {
    if |a| == 0 || !a[0].Version? then Err(ArchiveError)
    else if a[0].v > 0 then Err(UnknownSerializationVersion(a[0].v))
    else Ok(a[1..])
  }

  /** The header of a class whose `serialize` ignores its version argument. */
  function SkipVersion(a: seq<Field>): (r: Result<seq<Field>, DecodeError>)
    ensures r.Ok? <==> |a| > 0 && a[0].Version?
    ensures r.Ok? ==> r.value == a[1..]
  {
    if |a| > 0 && a[0].Version? then Ok(a[1..]) else Err(ArchiveError)
  }

  function ReadId(a: seq<Field>): (r: Result<Decoded<nat>, DecodeError>)
    ensures r.Ok? <==> |a| > 0 && a[0].IdField?
    ensures r.Ok? ==> a == [IdField(r.value.value)] + r.value.rest
  {
    if |a| > 0 && a[0].IdField? then Ok(Decoded(a[0].id, a[1..])) else Err(ArchiveError)
  }

  function ReadText(a: seq<Field>): (r: Result<Decoded<string>, DecodeError>)
    ensures r.Ok? <==> |a| > 0 && a[0].Text?
    ensures r.Ok? ==> a == [Text(r.value.value)] + r.value.rest
  {
    if |a| > 0 && a[0].Text? then Ok(Decoded(a[0].s, a[1..])) else Err(ArchiveError)
  }

  function ReadInt(a: seq<Field>): (r: Result<Decoded<int>, DecodeError>)
    ensures r.Ok? <==> |a| > 0 && a[0].Int?
    ensures r.Ok? ==> a == [Int(r.value.value)] + r.value.rest
  {
    if |a| > 0 && a[0].Int? then Ok(Decoded(a[0].i, a[1..])) else Err(ArchiveError)
  }

  function ReadTime(a: seq<Field>): (r: Result<Decoded<PTime>, DecodeError>)
    ensures r.Ok? <==> |a| > 0 && a[0].Time?
    ensures r.Ok? ==> a == [Time(r.value.value)] + r.value.rest
  {
    if |a| > 0 && a[0].Time? then Ok(Decoded(a[0].t, a[1..])) else Err(ArchiveError)
  }

  function ReadCount(a: seq<Field>): (r: Result<Decoded<nat>, DecodeError>)
    ensures r.Ok? <==> |a| > 0 && a[0].Count?
    ensures r.Ok? ==> a == [Count(r.value.value)] + r.value.rest
  {
    if |a| > 0 && a[0].Count? then Ok(Decoded(a[0].n, a[1..])) else Err(ArchiveError)
  }
}
