/**
 * JFR string records and the lazily decoded string table
 * (jfr-reader/src/string_table.rs).
 *
 * A record is an encoding tag byte, then either nothing (null, empty), a
 * constant-pool index, or a length followed by inline data. The table keeps
 * each record undecoded until it is first asked for, then caches the result.
 */
module StringTable {
  import opened Ints
  import opened Errors
  import opened Nom
  import opened Leb128
  import Utf8

  /** The encoding tag, `#[repr(u8)]` in declaration order 0..5. */
  datatype Encoding = Null | EmptyString | ConstantPool | Utf8ByteArray | CharArray | Latin1ByteArray

  /** The byte that stands for each encoding. */
  function EncodingTag(e: Encoding): (b: Byte)
    ensures b <= 5
  {
    match e
    case Null => 0
    case EmptyString => 1
    case ConstantPool => 2
    case Utf8ByteArray => 3
    case CharArray => 4
    case Latin1ByteArray => 5
  }

  /** `Encoding::try_from(u8)`: defined for exactly the six tags. */
  function EncodingFromTag(b: Byte): (r: Option<Encoding>)
    ensures r.Some? <==> b <= 5
    ensures r.Some? ==> EncodingTag(r.value) == b
  {
    if b == 0 then Some(Null)
    else if b == 1 then Some(EmptyString)
    else if b == 2 then Some(ConstantPool)
    else if b == 3 then Some(Utf8ByteArray)
    else if b == 4 then Some(CharArray)
    else if b == 5 then Some(Latin1ByteArray)
    else None
  }

  /** Each encoding is recovered from its tag. */
  lemma EncodingTagRoundTrip(e: Encoding)
    ensures EncodingFromTag(EncodingTag(e)) == Some(e)
  {
  }

  /** The fixed part of a record: the encoding and, where it has one, its number. */
  datatype StringRecordHeader =
    | HeaderNull
    | HeaderEmpty
    | HeaderConstantPool(index: I64)
    | HeaderUtf8(size: I32)
    | HeaderCharArray(size: I32)
    | HeaderLatin1(size: I32)

  function HeaderEncoding(h: StringRecordHeader): Encoding
  {
    match h
    case HeaderNull => Null
    case HeaderEmpty => EmptyString
    case HeaderConstantPool(_) => ConstantPool
    case HeaderUtf8(_) => Utf8ByteArray
    case HeaderCharArray(_) => CharArray
    case HeaderLatin1(_) => Latin1ByteArray
  }

  /** The failure an unknown tag byte produces: the input is that one byte. */
  function UnknownEncoding(tag: Byte): NomErr
  {
    Failure(NewStringResolve([tag], UnknownStringEncoding(tag)))
  }

  /** The array encodings: their header carries an `i32` length. */
  predicate IsArray(e: Encoding)
  {
    e.Utf8ByteArray? || e.CharArray? || e.Latin1ByteArray?
  }

  /** The header of an array encoding with length `n`. */
  function SizedHeader(e: Encoding, n: I32): (h: StringRecordHeader)
    requires IsArray(e)
    ensures HeaderEncoding(h) == e && h.size == n
  {
    match e
    case Utf8ByteArray => HeaderUtf8(n)
    case CharArray => HeaderCharArray(n)
    case Latin1ByteArray => HeaderLatin1(n)
  }

  /** What follows the tag byte of a header with encoding `e`: nothing, an `i64` index, or an `i32` length. */
  function ParseHeaderBody(e: Encoding, s1: seq<Byte>): (r: PResult<StringRecordHeader>)
    ensures r.POk? ==> HeaderEncoding(r.value) == e
    ensures e == Null || e == EmptyString ==> r.POk? && r.rest == s1
    ensures r.PErr? ==> r.err == Incomplete(Size(1))
  {
    match e
    case Null => POk(HeaderNull, s1)
    case EmptyString => POk(HeaderEmpty, s1)
    case ConstantPool =>
      (match ReadI64(s1)
       case PErr(err) => PErr(err)
       case POk(v, s2) => POk(HeaderConstantPool(v), s2))
    case _ =>
      match ReadI32(s1)
      case PErr(err) => PErr(err)
      case POk(n, s2) => POk(SizedHeader(e, n), s2)
  }

  /**
   * `StringRecordHeader::parse`. The tag is read with nom's complete `be_u8`,
   * so an empty input is an `Eof` error, not `Incomplete`; an unknown tag is a
   * `Failure`, which stops any enclosing parser.
   */
  function ParseHeader(s: seq<Byte>): (r: PResult<StringRecordHeader>)
    ensures |s| == 0 ==> r == PErr(Error(FromErrorKind(s, Eof)))
    ensures |s| > 0 && s[0] > 5 ==> r == PErr(UnknownEncoding(s[0]))
    ensures |s| > 0 && s[0] <= 1 ==> r.POk? && r.rest == s[1..]
    ensures r.POk? ==> EncodingTag(HeaderEncoding(r.value)) == s[0]
    ensures r.PErr? && |s| > 0 && s[0] <= 5 ==> r.err == Incomplete(Size(1))
  {
    match BeU8Complete(s)
    case PErr(err) => PErr(err)
    case POk(tag, s1) =>
      match EncodingFromTag(tag)
      case None => PErr(UnknownEncoding(tag))
      case Some(e) => ParseHeaderBody(e, s1)
  }

  /** The bytes of a header: the tag, then the index or length as a varint. */
  function EncodeHeader(h: StringRecordHeader): (b: seq<Byte>)
    ensures 1 <= |b| <= 10 && b[0] == EncodingTag(HeaderEncoding(h))
  {
    var tag := EncodingTag(HeaderEncoding(h));
    match h
    case HeaderNull => [tag]
    case HeaderEmpty => [tag]
    case HeaderConstantPool(v) => [tag] + Encode(AsUsize(v))
    case HeaderUtf8(n) => [tag] + Encode(AsUsize(n))
    case HeaderCharArray(n) => [tag] + Encode(AsUsize(n))
    case HeaderLatin1(n) => [tag] + Encode(AsUsize(n))
  }

  /** An index header reads back. */
  lemma IndexHeaderRoundTrip(v: I64, rest: seq<Byte>)
    ensures ParseHeaderBody(ConstantPool, Encode(AsUsize(v)) + rest) == POk(HeaderConstantPool(v), rest)
  {
    RoundTripSigned(v, rest);
  }

  /** A length header reads back. */
  lemma SizedHeaderRoundTrip(e: Encoding, n: I32, rest: seq<Byte>)
    requires IsArray(e)
    ensures ParseHeaderBody(e, Encode(AsUsize(n)) + rest) == POk(SizedHeader(e, n), rest)
  {
    RoundTripI32(n, rest);
  }

  /** Parsing reads back every header, whatever follows it. */
  lemma HeaderRoundTrip(h: StringRecordHeader, rest: seq<Byte>)
    ensures ParseHeader(EncodeHeader(h) + rest) == POk(h, rest)
  {
    var e := HeaderEncoding(h);
    var body := EncodeHeader(h)[1..];
    assert EncodeHeader(h) == [EncodingTag(e)] + body;
    ConsSplit(EncodingTag(e), body, rest);
    EncodingTagRoundTrip(e);
    match h
    case HeaderNull =>
    case HeaderEmpty =>
    case HeaderConstantPool(v) => IndexHeaderRoundTrip(v, rest);
    case HeaderUtf8(n) => SizedHeaderRoundTrip(e, n, rest);
    case HeaderCharArray(n) => SizedHeaderRoundTrip(e, n, rest);
    case HeaderLatin1(n) => SizedHeaderRoundTrip(e, n, rest);
  }

  /** A whole record with its inline data, not yet decoded. */
  datatype StringRecord =
    | RecordNull
    | RecordEmpty
    | RecordConstantPool(index: I64)
    | RecordUtf8(raw: seq<Byte>)
    | RecordCharArray(codes: seq<I32>)
    | RecordLatin1(raw: seq<Byte>)

  /** The record a header announces, with the inline data it was given. */
  predicate Announces(h: StringRecordHeader, r: StringRecord)
  {
    match h
    case HeaderNull => r == RecordNull
    case HeaderEmpty => r == RecordEmpty
    case HeaderConstantPool(v) => r == RecordConstantPool(v)
    case HeaderUtf8(n) => r.RecordUtf8? && |r.raw| == AsUsize(n)
    case HeaderCharArray(n) => r.RecordCharArray? && |r.codes| == AsUsize(n)
    case HeaderLatin1(n) => r.RecordLatin1? && |r.raw| == AsUsize(n)
  }

  /** The inline data a header announces, read from `s1`. */
  function ParseRecordBody(h: StringRecordHeader, s1: seq<Byte>): (r: PResult<StringRecord>)
    ensures r.POk? ==> Announces(h, r.value)
    ensures r.POk? && (r.value.RecordUtf8? || r.value.RecordLatin1?) ==> s1 == r.value.raw + r.rest
    ensures h.HeaderUtf8? || h.HeaderLatin1? ==> (r.PErr? <==> |s1| < AsUsize(h.size))
    ensures (h.HeaderUtf8? || h.HeaderLatin1?) && r.PErr? ==> r.err == Incomplete(Size(AsUsize(h.size) - |s1|))
    ensures !(h.HeaderUtf8? || h.HeaderLatin1? || h.HeaderCharArray?) ==> r.POk? && r.rest == s1
  {
    match h
    case HeaderNull => POk(RecordNull, s1)
    case HeaderEmpty => POk(RecordEmpty, s1)
    case HeaderConstantPool(v) => POk(RecordConstantPool(v), s1)
    case HeaderUtf8(n) =>
      (match Take(s1, AsUsize(n))
       case PErr(err) => PErr(err)
       case POk(data, s2) => POk(RecordUtf8(data), s2))
    case HeaderCharArray(n) =>
      (match Nom.Count(ReadI32, s1, AsUsize(n))
       case PErr(err) => PErr(err)
       case POk(codes, s2) => POk(RecordCharArray(codes), s2))
    case HeaderLatin1(n) =>
      match Take(s1, AsUsize(n))
      case PErr(err) => PErr(err)
      case POk(data, s2) => POk(RecordLatin1(data), s2)
  }

  /**
   * `StringRecord::parse`. Lengths are `i32` cast to `usize`, so a negative
   * length asks for about 2^64 bytes (or code units) and the parse ends
   * `Incomplete`.
   */
  function ParseRecord(s: seq<Byte>): (r: PResult<StringRecord>)
    ensures ParseHeader(s).PErr? ==> r == PErr(ParseHeader(s).err)
    ensures r.POk? ==> ParseHeader(s).POk? && Announces(ParseHeader(s).value, r.value)
    ensures r.POk? && (r.value.RecordUtf8? || r.value.RecordLatin1?) ==>
      ParseHeader(s).rest == r.value.raw + r.rest
  {
    match ParseHeader(s)
    case PErr(err) => PErr(err)
    case POk(h, s1) => ParseRecordBody(h, s1)
  }

  /** A record whose length fits the `i32` the header stores. */
  predicate Writable(r: StringRecord)
  {
    match r
    case RecordUtf8(raw) => |raw| < TWO_31
    case RecordCharArray(codes) => |codes| < TWO_31
    case RecordLatin1(raw) => |raw| < TWO_31
    case _ => true
  }

  function RecordHeader(r: StringRecord): (h: StringRecordHeader)
    requires Writable(r)
    ensures Announces(h, r)
  {
    match r
    case RecordNull => HeaderNull
    case RecordEmpty => HeaderEmpty
    case RecordConstantPool(v) => HeaderConstantPool(v)
    case RecordUtf8(raw) => HeaderUtf8(|raw|)
    case RecordCharArray(codes) => HeaderCharArray(|codes|)
    case RecordLatin1(raw) => HeaderLatin1(|raw|)
  }

  /** Code units written one varint each, as `count(leb128_i32, n)` reads them. */
  function EncodeCodes(codes: seq<I32>): seq<Byte>
  {
    ConcatMap(EncodeI32, codes)
  }

  /** The bytes of a whole record. */
  function EncodeRecord(r: StringRecord): seq<Byte>
    requires Writable(r)
  {
    EncodeHeader(RecordHeader(r)) +
      match r
      case RecordUtf8(raw) => raw
      case RecordCharArray(codes) => EncodeCodes(codes)
      case RecordLatin1(raw) => raw
      case _ => []
  }

  /** Parsing reads back every writable record, whatever follows it. */
  lemma RecordRoundTrip(r: StringRecord, rest: seq<Byte>)
    requires Writable(r)
    ensures ParseRecord(EncodeRecord(r) + rest) == POk(r, rest)
  {
    var h := RecordHeader(r);
    var data := EncodeRecord(r)[|EncodeHeader(h)|..];
    assert EncodeRecord(r) == EncodeHeader(h) + data;
    ConcatAssoc(EncodeHeader(h), data, rest);
    HeaderRoundTrip(h, data + rest);
    match r
    case RecordUtf8(raw) =>
      assert (raw + rest)[..|raw|] == raw && (raw + rest)[|raw|..] == rest;
    case RecordCharArray(codes) =>
      CountI32s(codes, rest);
    case RecordLatin1(raw) =>
      assert (raw + rest)[..|raw|] == raw && (raw + rest)[|raw|..] == rest;
    case _ =>
      assert data == [];
  }

  /** A decoded string: null, a reference into the `java.lang.String` constant pool, or text. */
  datatype StringValue = NullValue | ConstantPoolRef(index: I64) | Text(text: string)

  /** `StringValue::as_str`: only text has one. */
  function AsStr(v: StringValue): (r: Option<string>)
    ensures r.Some? <==> v.Text?
    ensures r.Some? ==> r.value == v.text
  {
    if v.Text? then Some(v.text) else None
  }

  /** ISO/IEC 8859-1: byte `b` is code point `b`. */
  function Latin1(raw: seq<Byte>): (r: string)
    ensures |r| == |raw|
    ensures forall i :: 0 <= i < |raw| ==> r[i] as int == raw[i]
  {
    if |raw| == 0 then [] else [raw[0] as char] + Latin1(raw[1..])
  }

  /** `char::try_from(x as u32)` over every code unit: `None` if any is not a scalar value. */
  function CharsOf(codes: seq<I32>): (r: Option<string>)
    ensures r.Some? <==> forall i :: 0 <= i < |codes| ==> Utf8.IsScalar(AsU32(codes[i]))
    ensures r.Some? ==> |r.value| == |codes|
    ensures r.Some? ==> forall i :: 0 <= i < |codes| ==> r.value[i] as int == codes[i]
  {
    if |codes| == 0 then Some([])
    else if !Utf8.IsScalar(AsU32(codes[0])) then None
    else
      match CharsOf(codes[1..])
      case None => None
      case Some(t) => Some([AsU32(codes[0]) as char] + t)
  }

  /** `to_ne_bytes` of each code unit, on a little-endian target: the payload of a bad character array. */
  function NativeBytes(codes: seq<I32>): (r: seq<Byte>)
    ensures |r| == 4 * |codes|
  {
    if |codes| == 0 then []
    else
      var u := AsU32(codes[0]);
      [u % 0x100, (u / 0x100) % 0x100, (u / 0x1_0000) % 0x100, u / 0x100_0000] + NativeBytes(codes[1..])
  }

  /**
   * `StringRecord::resolve`. The "remaining input" it returns is empty for
   * null, empty, constant-pool and character-array records, and the raw data
   * itself for UTF-8 and Latin-1 records.
   */
  function Resolve(r: StringRecord): (v: PResult<StringValue>)
    ensures v.PErr? <==> (r.RecordUtf8? && Utf8.Decode(r.raw).None?) || (r.RecordCharArray? && CharsOf(r.codes).None?)
    ensures v.PErr? ==> v.err.Failure? && v.err.e.kind == Fail
    ensures r.RecordNull? ==> v == POk(NullValue, [])
    ensures r.RecordEmpty? ==> v == POk(Text([]), [])
    ensures r.RecordConstantPool? ==> v == POk(ConstantPoolRef(r.index), [])
    ensures r.RecordUtf8? && v.POk? ==> v.value.Text? && Utf8.Encode(v.value.text) == r.raw && v.rest == r.raw
    ensures r.RecordUtf8? && v.PErr? ==> v.err == Failure(NewStringResolve(r.raw, InvalidUtf8String))
    ensures r.RecordCharArray? && v.POk? ==> (v.value.Text? && v.rest == [] && |v.value.text| == |r.codes| &&
      forall i :: 0 <= i < |r.codes| ==> v.value.text[i] as int == r.codes[i])
    ensures r.RecordCharArray? && v.PErr? ==> v.err == Failure(NewStringResolve(NativeBytes(r.codes), InvalidCharacterArray))
    ensures r.RecordLatin1? ==> (v.POk? && v.value.Text? && v.rest == r.raw && |v.value.text| == |r.raw| &&
      forall i :: 0 <= i < |r.raw| ==> v.value.text[i] as int == r.raw[i])
  {
    match r
    case RecordNull => POk(NullValue, [])
    case RecordEmpty => POk(Text([]), [])
    case RecordConstantPool(i) => POk(ConstantPoolRef(i), [])
    case RecordUtf8(raw) =>
      (match Utf8.Decode(raw)
       case None => PErr(Failure(NewStringResolve(raw, InvalidUtf8String)))
       case Some(t) =>
         Utf8.DecodeSound(raw);
         POk(Text(t), raw))
    case RecordCharArray(codes) =>
      (match CharsOf(codes)
       case None => PErr(Failure(NewStringResolve(NativeBytes(codes), InvalidCharacterArray)))
       case Some(t) => POk(Text(t), []))
    case RecordLatin1(raw) => POk(Text(Latin1(raw)), raw)
  }

  /** Text written as UTF-8 resolves back to itself. */
  lemma ResolveUtf8(t: string)
    ensures Resolve(RecordUtf8(Utf8.Encode(t))) == POk(Text(t), Utf8.Encode(t))
  {
    Utf8.DecodeEncode(t);
  }

  /** `ensure_resolved`'s outcome for one record, as the crate `Result`. */
  function ResolveEntry(r: StringRecord): (v: Result<StringValue>)
    ensures v.Ok? <==> Resolve(r).POk?
    ensures v.Ok? ==> v.value == Resolve(r).value
    ensures v.Err? ==> v.error == FromNom(Resolve(r).err)
  {
    match Resolve(r)
    case POk(x, _) => Ok(x)
    case PErr(e) => Err(FromNom(e))
  }

  /** One slot of the table: the record as parsed, or its cached decoding. */
  datatype Entry = Unparsed(record: StringRecord) | Parsed(result: Result<StringValue>)

  datatype LazyStringTable = LazyStringTable(entries: seq<Entry>)

  /** `From<Vec<StringRecord>>`: every slot starts undecoded. */
  function FromRecords(records: seq<StringRecord>): (t: LazyStringTable)
    ensures |t.entries| == |records|
    ensures forall i :: 0 <= i < |records| ==> t.entries[i] == Unparsed(records[i])
  {
    LazyStringTable(seq(|records|, i requires 0 <= i < |records| => Unparsed(records[i])))
  }

  /** `LazyStringTable::len`. */
  function Len(t: LazyStringTable): nat
  {
    |t.entries|
  }

  /** `LazilyDecodedRecord::ensure_resolved`: decode once, then keep the outcome. */
  function EnsureResolved(e: Entry): (r: Entry)
    ensures r.Parsed?
    ensures e.Parsed? ==> r == e
    ensures e.Unparsed? ==> r == Parsed(ResolveEntry(e.record))
  {
    match e
    case Parsed(_) => e
    case Unparsed(rec) => Parsed(ResolveEntry(rec))
  }

  /**
   * `LazyStringTable::get`: the value at `index` and the table after the
   * call. An index past the end is an error and leaves the table as it was.
   */
  function Get(t: LazyStringTable, index: U64): (r: (Result<StringValue>, LazyStringTable))
    ensures index >= Len(t) ==> r.0 == Err(StringTableUnknownIndex(index)) && r.1 == t
    ensures Len(r.1) == Len(t)
    ensures forall i :: 0 <= i < Len(t) && i != index ==> r.1.entries[i] == t.entries[i]
    ensures index < Len(t) ==> r.1.entries[index].Parsed? && r.0 == r.1.entries[index].result
    ensures index < Len(t) && t.entries[index].Parsed? ==> r.1 == t
  {
    if index >= |t.entries| then (Err(StringTableUnknownIndex(index)), t)
    else
      var e := EnsureResolved(t.entries[index]);
      (e.result, LazyStringTable(t.entries[index := e]))
  }

  /** The string table's meaning: entry `index` of the records, decoded. */
  function Lookup(records: seq<StringRecord>, index: U64): (r: Result<StringValue>)
    ensures index >= |records| ==> r == Err(StringTableUnknownIndex(index))
    ensures index < |records| ==> r == ResolveEntry(records[index])
  {
    if index >= |records| then Err(StringTableUnknownIndex(index)) else ResolveEntry(records[index])
  }

  /** Every slot of `t` holds record `i` either undecoded or decoded. */
  predicate Caches(t: LazyStringTable, records: seq<StringRecord>)
  {
    |t.entries| == |records| &&
    forall i :: 0 <= i < |records| ==>
      t.entries[i] == Unparsed(records[i]) || t.entries[i] == Parsed(ResolveEntry(records[i]))
  }

  /** A fresh table caches its records. */
  lemma FromRecordsCaches(records: seq<StringRecord>)
    ensures Caches(FromRecords(records), records)
  {
  }

  /** Memoisation is invisible: `get` returns what decoding the record returns, and the table still caches the records. */
  lemma GetAgreesWithLookup(t: LazyStringTable, records: seq<StringRecord>, index: U64)
    requires Caches(t, records)
    ensures Get(t, index).0 == Lookup(records, index)
    ensures Caches(Get(t, index).1, records)
  {
  }

  /** Asking twice changes nothing the second time and gives the same answer. */
  lemma GetTwice(t: LazyStringTable, index: U64)
    ensures Get(Get(t, index).1, index) == (Get(t, index).0, Get(t, index).1)
  {
  }
}
