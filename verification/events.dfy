/**
 * Event records inside a chunk (jfr-reader/src/chunk_event.rs, with the
 * older copy in jfr-reader/src/event.rs): a varint size and type, then the
 * event's fields. Parsing only frames the record; fields are decoded later.
 */
module Events {
  import opened Ints
  import opened Errors
  import opened Nom
  import opened Leb128

  const EVENT_TYPE_METADATA: I64 := 0
  const EVENT_TYPE_CONSTANT_POOL: I64 := 1

  datatype EventType = Metadata | ConstantPool | Other(id: I64)

  /** `EventType::from(i64)`. */
  function EventTypeFrom(v: I64): (t: EventType)
    ensures t == Metadata <==> v == EVENT_TYPE_METADATA
    ensures t == ConstantPool <==> v == EVENT_TYPE_CONSTANT_POOL
    ensures t.Other? ==> t.id == v
  {
    if v == EVENT_TYPE_METADATA then Metadata
    else if v == EVENT_TYPE_CONSTANT_POOL then ConstantPool
    else Other(v)
  }

  /** The type id an `EventType` stands for. */
  function EventTypeId(t: EventType): I64
  {
    match t
    case Metadata => EVENT_TYPE_METADATA
    case ConstantPool => EVENT_TYPE_CONSTANT_POOL
    case Other(v) => v
  }

  /** No type id is lost by the conversion. */
  lemma EventTypeIdFrom(v: I64)
    ensures EventTypeId(EventTypeFrom(v)) == v
    ensures EventTypeFrom(v).Other? <==> v != 0 && v != 1
  {
  }

  datatype EventHeader = EventHeader(size: I32, eventType: I64)

  /** `EventHeader::parse`: an i32 varint size, then an i64 varint type. */
  function ParseEventHeader(s: seq<Byte>): (r: PResult<EventHeader>)
    ensures r.PErr? ==> r.err == Incomplete(Size(1))
    ensures r.POk? ==> IsSuffix(r.rest, s) && |r.rest| + 2 <= |s|
  {
    match ReadI32(s)
    case PErr(e) => PErr(e)
    case POk(size, s1) =>
      match ReadI64(s1)
      case PErr(e) => PErr(e)
      case POk(eventType, s2) => POk(EventHeader(size, eventType), s2)
  }

  function EncodeEventHeader(h: EventHeader): (b: seq<Byte>)
    ensures 2 <= |b| <= 18
  {
    Encode(AsUsize(h.size)) + Encode(AsUsize(h.eventType))
  }

  /** An event header reads back, whatever follows it. */
  lemma EventHeaderRoundTrip(h: EventHeader, rest: seq<Byte>)
    ensures ParseEventHeader(EncodeEventHeader(h) + rest) == POk(h, rest)
  {
    var a, b := Encode(AsUsize(h.size)), Encode(AsUsize(h.eventType));
    ConcatAssoc(a, b, rest);
    RoundTripI32(h.size, b + rest);
    RoundTripSigned(h.eventType, rest);
  }

  /**
   * A framed record: the whole record including its header, and where the
   * fields start inside it.
   */
  datatype EventRecord = EventRecord(header: EventHeader, eventData: seq<Byte>, fieldsDataOffset: nat)

  /**
   * `EventRecord::parse` as written: the record is the first `size` bytes of
   * the input (`size as usize` sign-extends, so a negative size asks for an
   * impossible amount); nothing relates `size` to the header's own length.
   */
  function ParseEventRecord(s: seq<Byte>): (r: PResult<EventRecord>)
    ensures r.PErr? ==> r.err.Incomplete?
    ensures ParseEventHeader(s).PErr? ==> r.PErr?
    ensures ParseEventHeader(s).POk? ==>
      (r.POk? <==> AsUsize(ParseEventHeader(s).value.size) <= |s|)
    ensures r.POk? ==> r.value.header == ParseEventHeader(s).value
    ensures r.POk? ==> r.value.eventData + r.rest == s
    ensures r.POk? ==> |r.value.eventData| == AsUsize(r.value.header.size)
    ensures r.POk? ==> r.value.fieldsDataOffset == |s| - |ParseEventHeader(s).rest|
  {
    match Context("parsing event header", ParseEventHeader(s))
    case PErr(e) => PErr(e)
    case POk(header, afterHeader) =>
      var headerSize := |s| - |afterHeader|;
      match Context("reading full event data", Take(s, AsUsize(header.size)))
      case PErr(e) => PErr(e)
      case POk(eventData, s1) =>
        match Context("reading just fields data", Take(eventData, AsUsize(header.size)))
        case PErr(e) => PErr(e)
        case POk(_, _) => POk(EventRecord(header, eventData, headerSize), s1)
  }

  /** `ChunkEvent::fields_data`: the record minus its header; the slice panics when the offset is past the end. */
  function FieldsData(rec: EventRecord): (r: Result<seq<Byte>>)
    ensures r.Ok? <==> rec.fieldsDataOffset <= |rec.eventData|
    ensures r.Ok? ==> rec.eventData == rec.eventData[..rec.fieldsDataOffset] + r.value
    ensures r.Err? ==> r.error.Panic?
  {
    if rec.fieldsDataOffset <= |rec.eventData| then Ok(rec.eventData[rec.fieldsDataOffset..])
    else Err(Panic("range start index out of range for slice"))
  }

  /** `is_special_event`: the metadata and constant-pool types. */
  predicate IsSpecialEvent(rec: EventRecord)
  {
    rec.header.eventType == EVENT_TYPE_METADATA || rec.header.eventType == EVENT_TYPE_CONSTANT_POOL
  }

  /** A record is special exactly when its type is not an `Other`. */
  lemma SpecialIffNotOther(rec: EventRecord)
    ensures IsSpecialEvent(rec) <==> !EventTypeFrom(rec.header.eventType).Other?
  {
  }

  /** `start_ticks`: the first varint of the fields. */
  function StartTicks(rec: EventRecord): (r: Result<I64>)
    ensures FieldsData(rec).Err? ==> r == Err(FieldsData(rec).error)
    ensures r.Err? && FieldsData(rec).Ok? ==> r.error.ParseIncomplete?
  {
    var fields :- FieldsData(rec);
    var (v, _) :- Lift(Context("reading assumed start time field", ReadI64(fields)));
    Ok(v)
  }

  /** `start_duration`: the first two varints of the fields. */
  function StartDuration(rec: EventRecord): (r: Result<(I64, I64)>)
    ensures FieldsData(rec).Err? ==> r == Err(FieldsData(rec).error)
    ensures r.Err? && FieldsData(rec).Ok? ==> r.error.ParseIncomplete?
    ensures r.Ok? ==> StartTicks(rec) == Ok(r.value.0)
  {
    var fields :- FieldsData(rec);
    var (start, s1) :- Lift(Context("reading assumed start time field", ReadI64(fields)));
    var (duration, _) :- Lift(Context("reading assumed duration field", ReadI64(s1)));
    Ok((start, duration))
  }

  /** The bytes of a record whose header declares exactly its own length. */
  predicate WellSized(h: EventHeader, fields: seq<Byte>)
  {
    h.size == |EncodeEventHeader(h)| + |fields|
  }

  /** A well-sized record is framed back exactly, its fields are what was written, and the rest is untouched. */
  lemma EventRecordRoundTrip(h: EventHeader, fields: seq<Byte>, rest: seq<Byte>)
    requires WellSized(h, fields)
    ensures var e := EncodeEventHeader(h);
      ParseEventRecord(e + fields + rest) == POk(EventRecord(h, e + fields, |e|), rest)
    ensures FieldsData(EventRecord(h, EncodeEventHeader(h) + fields, |EncodeEventHeader(h)|)) == Ok(fields)
  {
    var e := EncodeEventHeader(h);
    var s := e + fields + rest;
    ConcatAssoc(e, fields, rest);
    EventHeaderRoundTrip(h, fields + rest);
    assert s[..|e| + |fields|] == e + fields;
    assert (e + fields)[|e|..] == fields;
  }

  /** The first two fields of a record written as two varints read back as the start and duration. */
  lemma StartDurationRoundTrip(h: EventHeader, start: I64, duration: I64, more: seq<Byte>)
    requires WellSized(h, Encode(AsUsize(start)) + Encode(AsUsize(duration)) + more)
    ensures var fields := Encode(AsUsize(start)) + Encode(AsUsize(duration)) + more;
      var e := EncodeEventHeader(h);
      StartDuration(EventRecord(h, e + fields, |e|)) == Ok((start, duration))
  {
    var a, b := Encode(AsUsize(start)), Encode(AsUsize(duration));
    var fields := a + b + more;
    EventRecordRoundTrip(h, fields, []);
    ConcatAssoc(a, b, more);
    RoundTripSigned(start, b + more);
    RoundTripSigned(duration, more);
  }

  // As written, a record whose declared size is smaller than its own header
  // is accepted: nothing is consumed beyond the declared size, and
  // `fields_data` then slices past the end of the record.

  /**
   * A size byte of 0 and a one-byte type `t` (`[0x00, 0x05]` among them):
   * the parse succeeds, consumes nothing, and the fields panic.
   */
  lemma UndersizedRecordAccepted(t: Byte, more: seq<Byte>)
    requires t < 0x80
    ensures var s := [0x00, t] + more;
      ParseEventRecord(s) == POk(EventRecord(EventHeader(0, t), [], 2), s)
      && FieldsData(ParseEventRecord(s).value).Err?
  {
    var s := [0x00, t] + more;
    SingleByte(s);
    assert s[1..] == [t] + more;
    SingleByte(s[1..]);
    assert s[1..][1..] == more;
    assert s[..0] == [];
  }

  /**
   * The record parse with the missing check: a declared size smaller than
   * the header is a parse error (kind `Fail`) at the record start.
   */
  function ParseEventRecordChecked(s: seq<Byte>): (r: PResult<EventRecord>)
    ensures r.POk? <==>
      (ParseEventRecord(s).POk? && ParseEventRecord(s).value.fieldsDataOffset <= |ParseEventRecord(s).value.eventData|)
    ensures r.POk? ==> r == ParseEventRecord(s)
    ensures r.POk? ==> FieldsData(r.value).Ok? && |r.rest| < |s|
  {
    match ParseEventRecord(s)
    case PErr(e) => PErr(e)
    case POk(rec, rest) =>
      if rec.fieldsDataOffset <= |rec.eventData| then POk(rec, rest)
      else PErr(Error(FromErrorKind(s, Fail)))
  }

  /** Well-sized records pass the check unchanged. */
  lemma CheckedRoundTrip(h: EventHeader, fields: seq<Byte>, rest: seq<Byte>)
    requires WellSized(h, fields)
    ensures var e := EncodeEventHeader(h);
      ParseEventRecordChecked(e + fields + rest) == POk(EventRecord(h, e + fields, |e|), rest)
  {
    EventRecordRoundTrip(h, fields, rest);
  }
}
