# A Dafny model of the java-rs JFR chunk decoder

This project models the byte-level core of the `jfr-reader` crate, which reads
Java Flight Recorder (JFR) recordings, together with small pure pieces of two
sibling crates: `jfr-metadata-xml`, which queries the JDK's `metadata.xml`, and
`jvm-attach`, a client for the HotSpot attach protocol. Every operation is a
pure function over immutable values. Bytes are `Byte` (an `int` in 0..255).
Parsers take a byte sequence and return either a value with the rest of the
input, or nom's `Incomplete`/`Error`/`Failure`. Rust panics (a slice out of
range, a `len() - 1` underflow, a negative capacity) become the crate-level
error `Panic`, so each one is visible in a result.

Each module follows one source file or one concern:

- `ints.dfy` (`Ints`): the fixed-width integer ranges and every truncating or reinterpreting `as` cast.
- `errors.dfy` (`Errors`): nom's outcomes, `NomParseError`, the crate `Error` and their conversions (`error.rs`).
- `text.dfy`, `utf8.dfy` (`Text`, `Utf8`): the Rust `str` operations the code relies on (`split_once`, `split(..).nth(1)`, `trim`, `lines`, integer `from_str`) and UTF-8 (RFC 3629) encoding and decoding.
- `nom.dfy` (`Nom`): the streaming nom combinators used (`take`, `tag`, `be_u*`, `count`).
- `leb128.dfy` (`Leb128`): the JFR varint of `common.rs` and its encoder. The ninth byte contributes all eight of its bits, and no varint is ever rejected as malformed.
- `string_table.dfy` (`StringTable`): the string records of `string_table.rs`, their resolution, and the memoising lazy table as a state model.
- `primitives.dfy` (`Primitives`): the primitive decoders of `primitive.rs` and their older copies in `value.rs`.
- `events.dfy` (`Events`): event record headers and framing (`chunk_event.rs`, `event.rs`).
- `constant_pool.dfy` (`ConstantPool`): checkpoint headers, mask flags and the pool layout.
- `metadata_records.dfy`, `metadata_elements.dfy` (`MetadataRecords`, `MetadataElements`): the metadata event's records and their typing into elements (`metadata.rs`). A repeated class id replaces the earlier class in the class map.
- `chunk.dfy` (`Chunk`): the chunk header, `SliceReader`, the record scan and the checkpoint chain. The header parse checks only the magic `FLR\0`, not the version or the offsets.
- `values.dfy`, `time.dfy`, `resolver.dfy` (`Values`, `Time`, `Resolver`): constant-pool lookup and merging, tick arithmetic, and schema-driven value decoding (`resolver.rs`).
- `units.dfy`, `annotations.dfy`, `settings.dfy` (`Units`, `Annotations`, `Settings`): the textual parsers of `annotations.rs` and `settings.rs`.
- `sorting.dfy`, `metadata_xml.dfy` (`Sorting`, `MetadataXml`): the `jfr-metadata-xml` queries.
- `rust_codegen.dfy` (`RustCodegen`): the type mapping and item order of the generator in `jfr-reader/src/metadata_xml.rs`.
- `jvm_attach.dfy` (`JvmAttach`): request framing, status dispatch, `read_int` and the `NSpid:` lookup.

## Model

| member | source | states |
|---|---|---|
| Ints.ToI8 | jfr-reader/src/common.rs:21 | a byte read by `be_i8` is non-negative exactly when its high bit is clear, and otherwise is the byte minus 256 |
| Ints.ToI32 | jfr-reader/src/common.rs:41-45 | `x as i32` keeps the low 32 bits of `x` and is the identity on values already in `i32` range |
| Ints.ToI16 | jfr-reader/src/common.rs:35-39 | `x as i16` keeps the low 16 bits of `x` and is the identity on values already in `i16` range |
| Ints.AsUsize | jfr-reader/src/resolver.rs:440 | a signed value cast to an unsigned 64-bit one keeps its bit pattern: reading it back as `i64` gives the original, and non-negative values are unchanged |
| Ints.TruncDiv | jfr-reader/src/resolver.rs:171-175 | signed `/` truncates toward zero: the quotient agrees with floor division for non-negative dividends, is its mirror for negative ones, and the remainder's sign follows the dividend |
| Errors.FromErrorKind | jfr-reader/src/error.rs:36-43 | a fresh parse error records the input and kind, with no contexts and no string-resolve cause |
| Errors.Append | jfr-reader/src/error.rs:45-47 | appending an outer location returns the inner error unchanged |
| Errors.AddContext | jfr-reader/src/error.rs:51-55 | adding a context pushes exactly one label at the end and leaves input, kind and cause unchanged |
| Errors.NewStringResolve | jfr-reader/src/error.rs:60-67 | a string-resolve error has kind `Fail`, the given cause, the input and no contexts |
| Errors.FromNom | jfr-reader/src/error.rs:114-122 | nom's Incomplete, Error and Failure map one-to-one onto ParseIncomplete, ParseError and ParseFailure, and the payload is recoverable (`ToNom` inverts it) |
| Errors.Lift | jfr-reader/src/error.rs:114-122 | `?` on a nom result succeeds exactly when the parser did, with the same value and rest, and otherwise carries the mapped error |
| Nom.BeI8 | jfr-reader/src/common.rs:21 | `be_i8` succeeds iff a byte is available, returns it as two's complement and consumes exactly one byte; an empty input is Incomplete(1) |
| Leb128.Scan | jfr-reader/src/common.rs:20-32 | the loop reads between 1 and 9 bytes and leaves the rest of the input; running out is Incomplete(1) |
| Leb128.ScanFails | jfr-reader/src/common.rs:15-45 | decoding fails exactly when fewer than nine bytes remain and every one of them has its continuation bit set |
| Leb128.ScanStops | jfr-reader/src/common.rs:24-32 | decoding stops right after the first byte with the high bit clear, or after the ninth byte whatever its high bit |
| Leb128.Accumulate | jfr-reader/src/common.rs:15-45 | the accumulated value stays below 2^64: the groups never carry into each other |
| Leb128.ReadI64 | jfr-reader/src/common.rs:15-33 | `leb128_i64` fails only on a short input of continuation bytes, otherwise consumes 1 to 9 bytes, all but the last continuing (the ninth byte is never rejected) |
| Leb128.SingleByte | jfr-reader/src/common.rs:20-26 | a first byte with its high bit clear is the whole value and consumes exactly one byte |
| Leb128.ScanEncoded | jfr-reader/src/common.rs:20-32 | the encoder's bytes form exactly one varint, whatever follows them |
| Leb128.AccumulateEncoded | jfr-reader/src/common.rs:15-45 | the groups of the encoder's bytes, weighted by `7 * i` and the ninth by 56, add up to the encoded value |
| Leb128.RoundTrip | jfr-reader/src/common.rs:15-33 | decoding inverts the 7x8+8-bit encoder for every 64-bit pattern and leaves what follows |
| Leb128.RoundTripSigned | jfr-reader/src/common.rs:15-33 | every `i64` written as its two's-complement pattern reads back unchanged |
| Leb128.ReadI32 | jfr-reader/src/common.rs:41-45 | `leb128_i32` consumes exactly the bytes `leb128_i64` consumes, fails exactly when it fails, and keeps its low 32 bits with no range error |
| Leb128.ReadI16 | jfr-reader/src/common.rs:35-39 | `leb128_i16` consumes exactly the bytes `leb128_i64` consumes, fails exactly when it fails, and keeps its low 16 bits |
| Leb128.RoundTripI32 | jfr-reader/src/common.rs:41-45 | every `i32`, sign-extended and encoded, reads back unchanged through `leb128_i32` |
| Leb128.RoundTripI16 | jfr-reader/src/common.rs:35-39 | every `i16`, sign-extended and encoded, reads back unchanged through `leb128_i16` |
| Ints.ToI64 | jfr-reader/src/chunk.rs:302 | `x as i64` on a `u64` reads the same 64 bits as two's complement: negative exactly when the top bit is set, and then smaller by 2^64 |
| Ints.AsU32 | jfr-reader/src/primitive.rs:66 | `x as u32` on an `i32` keeps non-negative values and adds 2^32 to negative ones |
| StringTable.EncodingFromTag | jfr-reader/src/string_table.rs:35-44 | `Encoding::try_from` is defined for exactly the tags 0 to 5, and each tag maps to the encoding that carries it |
| StringTable.EncodingTagRoundTrip | jfr-reader/src/string_table.rs:35-44 | every encoding is recovered from its own tag byte |
| StringTable.ParseHeaderBody | jfr-reader/src/string_table.rs:88-111 | after the tag, Null and Empty read nothing, ConstantPool reads one `i64` varint and the array kinds one `i32` varint length, and the header has the tag's encoding |
| StringTable.ParseHeader | jfr-reader/src/string_table.rs:78-114 | an empty input is an Eof error, a tag above 5 is a Failure carrying UnknownStringEncoding(tag), tags 0 and 1 consume only the tag byte, and the header found has the tag's encoding |
| StringTable.HeaderRoundTrip | jfr-reader/src/string_table.rs:78-114 | every header written as its tag and varint reads back unchanged, whatever follows it |
| StringTable.ParseRecordBody | jfr-reader/src/string_table.rs:157-176 | UTF-8 and Latin-1 records take exactly `size as usize` payload bytes, failing Incomplete for the shortfall; character arrays read that many varint code units |
| StringTable.ParseRecord | jfr-reader/src/string_table.rs:154-179 | a record parse fails whenever its header does, and a parsed record carries exactly the data its header announces |
| StringTable.RecordRoundTrip | jfr-reader/src/string_table.rs:154-179 | every record written with a header and payload reads back unchanged, whatever follows it |
| StringTable.AsStr | jfr-reader/src/string_table.rs:241-247 | only text values have a string; null and constant-pool references have none |
| StringTable.Latin1 | jfr-reader/src/string_table.rs:217-222 | Latin-1 resolution maps byte `b` to code point `b`, one character per byte |
| StringTable.CharsOf | jfr-reader/src/string_table.rs:196-205 | a character array converts iff every code unit, cast to `u32`, is a Unicode scalar value, and then keeps each code as its character |
| StringTable.NativeBytes | jfr-reader/src/string_table.rs:207-208 | the error payload of a bad character array holds four bytes per code unit |
| StringTable.Resolve | jfr-reader/src/string_table.rs:184-224 | fails exactly for ill-formed UTF-8 (payload: the raw bytes) or a character array with a non-scalar code (payload: the codes' native bytes), always as a Failure of kind Fail; Null, Empty and ConstantPool give null, "" and the reference with no remaining input; a character array gives one character per code, with that code point; UTF-8 gives the text that encodes to the bytes; Latin-1 gives byte `b` as code point `b`; both return the raw bytes as the remaining input |
| StringTable.ResolveUtf8 | jfr-reader/src/string_table.rs:189-195 | text written as UTF-8 resolves back to itself, returning the raw bytes as the remaining input |
| StringTable.ResolveEntry | jfr-reader/src/string_table.rs:274-277 | the cached outcome is the resolved value on success and the crate error converted from the nom error otherwise |
| StringTable.FromRecords | jfr-reader/src/string_table.rs:286-295 | a new table has one undecoded entry per record, in order |
| StringTable.EnsureResolved | jfr-reader/src/string_table.rs:266-278 | an entry is decoded once: an already decoded entry is kept as it is, an undecoded one becomes the outcome of resolving its record |
| StringTable.Get | jfr-reader/src/string_table.rs:313-328 | an index at or past `len()` is StringTableUnknownIndex and leaves the table unchanged; otherwise only that entry changes, it becomes decoded, and its outcome is returned; the length never changes |
| StringTable.Lookup | jfr-reader/src/string_table.rs:313-328 | the table's meaning: an out-of-range index is StringTableUnknownIndex, otherwise the decoded record |
| StringTable.FromRecordsCaches | jfr-reader/src/string_table.rs:286-295 | a fresh table is a cache of its records |
| StringTable.GetAgreesWithLookup | jfr-reader/src/string_table.rs:266-328 | memoisation is invisible: `get` returns exactly what decoding the record returns, and the table stays a cache of the same records |
| StringTable.GetTwice | jfr-reader/src/string_table.rs:316-327 | asking for the same index twice changes nothing the second time and returns the same outcome, a cached error included |
| Utf8.DecodeEncode | jfr-reader/src/string_table.rs:189-195 | `String::from_utf8` accepts the UTF-8 encoding (RFC 3629) of every string and returns that string |
| Utf8.DecodeSound | jfr-reader/src/string_table.rs:189-195 | whatever `from_utf8` accepts is exactly the encoding of the text it returns |
| Utf8.DecodeIff | jfr-reader/src/string_table.rs:189-195 | bytes decode to a string exactly when they are its encoding, so overlong forms, surrogates and values past U+10FFFF are rejected |
| Utf8.DecodeEncodeChar | jfr-reader/src/string_table.rs:189-195 | one encoded scalar value decodes back to itself with its own length, whatever follows it |
| Utf8.DecodeFirstCanonical | jfr-reader/src/string_table.rs:189-195 | a well-formed leading sequence is the encoding of the value decoded from it |
| Primitives.ParseBoolean | jfr-reader/src/primitive.rs:21-24 | a boolean consumes exactly one byte and is true iff that byte is non-zero; an empty input is Incomplete(1) |
| Primitives.ParseFloatBits | jfr-reader/src/primitive.rs:26-29 | a float consumes exactly four bytes, read big-endian as its bit pattern, or is Incomplete for the shortfall |
| Primitives.ParseDoubleBits | jfr-reader/src/primitive.rs:31-34 | a double consumes exactly eight bytes, read big-endian as its bit pattern, or is Incomplete for the shortfall |
| Primitives.ParseChar | jfr-reader/src/primitive.rs:63-70 | a char is an `i32` varint whose bits cast to `u32` must be a Unicode scalar value, else a Failure; a varint error passes through unchanged |
| Primitives.CharRoundTrip | jfr-reader/src/value.rs:63-70 | every character written as its code-point varint reads back, whatever follows it |
| Primitives.ParseJavaLangString | jfr-reader/src/primitive.rs:56-61 | a string is a string record resolved, with the rest being what follows the record; a record error passes through |
| Primitives.StringPrimitive | jfr-reader/src/primitive.rs:183-187 | a resolved string value becomes one of the three string variants |
| Primitives.StringPrimitiveInverse | jfr-reader/src/value.rs:180-190 | `parse_string` keeps the variant, the text and the constant-pool index: mapping back gives the string value, and only inline text becomes `String` |
| Primitives.ResolveParser | jfr-reader/src/primitive.rs:193-208 | a parser is found for exactly the nine names boolean, char, float, double, byte, short, int, long and java.lang.String, and it is the one registered under that name |
| Primitives.ResolveKindName | jfr-reader/src/value.rs:193-206 | every parser is found under its own name, so no two names share a parser |
| Primitives.BooleanPrimitive | jfr-reader/src/primitive.rs:140-143 | `Primitive::parse_boolean` yields a Boolean |
| Primitives.CharPrimitive | jfr-reader/src/primitive.rs:145-148 | `Primitive::parse_char` yields a Character |
| Primitives.FloatPrimitive | jfr-reader/src/primitive.rs:150-153 | `Primitive::parse_float` yields a Float |
| Primitives.DoublePrimitive | jfr-reader/src/primitive.rs:155-158 | `Primitive::parse_double` yields a Double |
| Primitives.BytePrimitive | jfr-reader/src/primitive.rs:160-163 | `Primitive::parse_byte` yields a Byte |
| Primitives.ShortPrimitive | jfr-reader/src/primitive.rs:165-168 | `Primitive::parse_short` yields a Short |
| Primitives.IntPrimitive | jfr-reader/src/primitive.rs:170-173 | `Primitive::parse_int` yields an Integer |
| Primitives.LongPrimitive | jfr-reader/src/primitive.rs:175-178 | `Primitive::parse_long` yields a Long |
| Primitives.StringPrimitiveParse | jfr-reader/src/primitive.rs:180-190 | `Primitive::parse_string` yields a null, inline or pooled string |
| Primitives.ParseAs | jfr-reader/src/primitive.rs:193-208 | the parser of each kind yields a value of the variant that kind stands for |
| Primitives.Dispatch | jfr-reader/src/primitive.rs:196-206 | the parser registered for each kind is the matching `Primitive::parse_*` function |
| Primitives.OctetRoundTrip | jfr-reader/src/value.rs:21-24 | a boolean or byte written as one byte reads back with its own parser |
| Primitives.ShortRoundTrip | jfr-reader/src/primitive.rs:41-44 | every `i16` written as its varint reads back as a Short |
| Primitives.IntRoundTrip | jfr-reader/src/primitive.rs:46-49 | every `i32` written as its varint reads back as an Integer |
| Primitives.LongRoundTrip | jfr-reader/src/primitive.rs:51-54 | every `i64` written as its varint reads back as a Long |
| Primitives.BitsRoundTrip | jfr-reader/src/primitive.rs:26-34 | a float or double bit pattern written big-endian reads back |
| Primitives.StringRoundTrip | jfr-reader/src/primitive.rs:56-61 | a null, inline or pooled string written as its string record reads back |
| Primitives.PrimitiveRoundTrip | jfr-reader/src/primitive.rs:139-190 | every primitive written in its wire form reads back unchanged with the parser of its own kind, whatever follows it |
| Primitives.TryParseFromName | jfr-reader/src/primitive.rs:213-222 | an unknown name consumes nothing and yields None; a known name runs that name's parser and wraps its value, its rest and its error unchanged |
| Primitives.AsBoolean | jfr-reader/src/primitive.rs:225-231 | `as_boolean` answers only for a Boolean |
| Primitives.AsByte | jfr-reader/src/primitive.rs:233-239 | `as_byte` answers only for a Byte |
| Primitives.AsShort | jfr-reader/src/primitive.rs:241-247 | `as_short` answers only for a Short |
| Primitives.AsInteger | jfr-reader/src/primitive.rs:249-255 | `as_integer` answers only for an Integer |
| Primitives.AsLong | jfr-reader/src/primitive.rs:257-263 | `as_long` answers only for a Long |
| Primitives.AsFloat | jfr-reader/src/primitive.rs:265-271 | `as_float` answers only for a Float |
| Primitives.AsDouble | jfr-reader/src/primitive.rs:273-279 | `as_double` answers only for a Double |
| Primitives.AsChar | jfr-reader/src/primitive.rs:281-287 | `as_char` answers only for a Character |
| Primitives.AsStr | jfr-reader/src/primitive.rs:289-299 | `as_str` answers only for an inline String, never for the null or pooled string |
| Primitives.AccessorsExclusive | jfr-reader/src/primitive.rs:224-299 | exactly one accessor answers for each value except the null and pooled strings, for which none does, and it returns the stored value |
| Events.EventTypeFrom | jfr-reader/src/event.rs:34-42 | type 0 is Metadata, type 1 is ConstantPool, and every other id is Other carrying that id |
| Events.EventTypeIdFrom | jfr-reader/src/event.rs:34-42 | the conversion loses no id, and a type is Other exactly when its id is neither 0 nor 1 |
| Events.ParseEventHeader | jfr-reader/src/chunk_event.rs:35-42 | the header is an `i32` varint size then an `i64` varint type: at least two bytes are consumed, and running out is Incomplete(1) |
| Events.EventHeaderRoundTrip | jfr-reader/src/event.rs:51-58 | a header written as its two varints reads back, whatever follows it |
| Events.ParseEventRecord | jfr-reader/src/chunk_event.rs:110-128 | as written: the record is exactly the first `size as usize` bytes, header included, the rest follows it, it fails Incomplete if fewer bytes remain, and the fields offset is the header's length, never compared with `size` |
| Events.FieldsData | jfr-reader/src/chunk_event.rs:175-177 | the fields are the event data minus its header, so the event data is the header bytes followed by them; an offset past the end panics |
| Events.SpecialIffNotOther | jfr-reader/src/chunk_event.rs:133-138 | a record is special exactly when its type maps to Metadata or ConstantPool |
| Events.StartTicks | jfr-reader/src/chunk_event.rs:64-70 | the start is read from the fields data; a fields error passes through and a short varint is Incomplete |
| Events.StartDuration | jfr-reader/src/chunk_event.rs:81-88 | start and duration are two consecutive varints of the fields data, the first being what `start_ticks` reads |
| Events.EventRecordRoundTrip | jfr-reader/src/event.rs:109-127 | a record whose size covers header and fields frames back exactly, its fields are what was written, and the rest is untouched |
| Events.StartDurationRoundTrip | jfr-reader/src/event.rs:82-89 | fields written as two varints read back as the start and duration |
| Events.UndersizedRecordAccepted | jfr-reader/src/chunk_event.rs:110-177 | a record of declared size 0 and any one-byte type (`[0x00, 0x05]` among them) parses, consumes nothing, and its fields slice panics |
| Events.ParseEventRecordChecked | jfr-reader/src/chunk_event.rs:110-128 | with the missing check, a record parses only when its header fits inside its declared size, then agrees with the as-written parse, has fields, and always consumes input |
| Events.CheckedRoundTrip | jfr-reader/src/event.rs:109-127 | records whose size covers their header pass the check unchanged |
| ConstantPool.HeaderSteps | jfr-reader/src/constant_pool.rs:66-89 | the header is read in order: `i32` size, four `i64` varints (type id, timestamp, duration, delta), one signed mask byte and an `i32` pool count |
| ConstantPool.ConstantPoolHeaderRoundTrip | jfr-reader/src/constant_pool.rs:66-89 | every checkpoint header written in that order reads back, whatever follows it |
| ConstantPool.MaskFlags | jfr-reader/src/constant_pool.rs:45-94 | `mask_flags` keeps every bit of the mask byte, undefined bits included |
| ConstantPool.FlagsAreBits | jfr-reader/src/constant_pool.rs:25-114 | `is_flush`, `is_chunk_header`, `is_statics` and `is_thread` each test exactly one bit of the mask: 1, 2, 4 and 8 |
| ConstantPool.FlagsIndependent | jfr-reader/src/constant_pool.rs:22-46 | any eight mask bits are some header's mask, so the four flags vary independently of each other and of the other bits |
| ConstantPool.ParseConstantPoolEvent | jfr-reader/src/constant_pool.rs:162-171 | the pool data begins right after the header and runs to the end of the input; the returned rest begins `size` bytes after the record start; fewer than `size` bytes is an error |
| ConstantPool.ConstantPoolEventRoundTrip | jfr-reader/src/constant_pool.rs:162-171 | a checkpoint whose size covers its header and pools frames back |
| ConstantPool.ParseClass | jfr-reader/src/constant_pool.rs:131-149 | a class group starts with its `i64` class id, which is the id the group carries |
| ConstantPool.ResolveConstants | jfr-reader/src/constant_pool.rs:183-199 | exactly `pool_count` groups are read, none when the count is not positive |
| ConstantPool.PairRoundTrip | jfr-reader/src/constant_pool.rs:117-129 | an index/value pair reads back, the value decoded with the group's class id |
| ConstantPool.ClassHead | jfr-reader/src/constant_pool.rs:135-146 | a group's id and count read back, and the loop over its values starts right after them |
| ConstantPool.ClassRoundTrip | jfr-reader/src/constant_pool.rs:131-149 | a class group written as id, count and pairs reads back, every value with that group's class id |
| ConstantPool.ResolveRoundTrip | jfr-reader/src/constant_pool.rs:183-199 | the pools of a checkpoint written from a list of groups resolve to exactly those groups, in order |
| MetadataRecords.MetadataHeaderSteps | jfr-reader/src/metadata.rs:98-117 | the metadata header is six varints in order: `i32` size, four `i64`s (event type, start, duration, metadata id) and an `i32` string count |
| MetadataRecords.MetadataHeaderRoundTrip | jfr-reader/src/metadata.rs:98-117 | every metadata header written in that order reads back, whatever follows it |
| MetadataRecords.ParsePair | jfr-reader/src/metadata.rs:145 | an attribute pair is two `i32` varints and always consumes input |
| MetadataRecords.ParseElement | jfr-reader/src/metadata.rs:139-163 | an element record always consumes input, so the recursion through its children ends |
| MetadataRecords.ParseAttributesThen | jfr-reader/src/metadata.rs:142-145 | the attribute stage reads an `i32` count and that many pairs, and the stage always consumes input |
| MetadataRecords.ParseChildrenThen | jfr-reader/src/metadata.rs:147-153 | the children stage reads an `i32` count and that many elements, and always consumes input |
| MetadataRecords.ParseChildren | jfr-reader/src/metadata.rs:150-153 | the children loop yields exactly the requested number of elements and never lengthens the input |
| MetadataRecords.ChildrenCons | jfr-reader/src/metadata.rs:150-153 | a child parsed in front of a successful children loop extends it by one, in order |
| MetadataRecords.AttributesRoundTrip | jfr-reader/src/metadata.rs:145 | an attribute list written as pairs reads back through `count(pair(..), n)` |
| MetadataRecords.CountRoundTrip | jfr-reader/src/metadata.rs:142-147 | a count below 2^31 reads back as itself and is the same `usize` |
| MetadataRecords.ElementSteps | jfr-reader/src/metadata.rs:139-163 | an element is a name index, an attribute count with exactly that many pairs, then a child count with exactly that many children, in that order |
| MetadataRecords.ElementRoundTrip | jfr-reader/src/metadata.rs:139-163 | every element tree with counts below 2^31 written in that form reads back, whatever follows it |
| MetadataRecords.ChildrenRoundTrip | jfr-reader/src/metadata.rs:150-153 | a sequence of written children reads back through the children loop |
| MetadataRecords.RecordsSteps | jfr-reader/src/metadata.rs:178-196 | the metadata records are the header, then exactly `string_count` string records, then one root element |
| MetadataRecords.MetadataRecordsRoundTrip | jfr-reader/src/metadata.rs:178-196 | a metadata event's header, strings and root, written in that order, read back |
| MetadataElements.GetStr | jfr-reader/src/metadata.rs:199-203 | a string-table failure is passed on; otherwise the result is the entry's inline text, and an entry without inline text is a construction error, never a panic |
| MetadataElements.ResolvePair | jfr-reader/src/metadata.rs:297-321 | one attribute turn succeeds exactly when key and value resolve and the key is accepted, and then yields both strings; a key failure comes first |
| MetadataElements.ResolvedKeysAccepted | jfr-reader/src/metadata.rs:393-417 | resolving an attribute list succeeds exactly when every pair resolves with an accepted key, and then keeps the pairs' order and number |
| MetadataElements.Replaced | jfr-reader/src/metadata.rs:297-313 | a loop of `Option::replace` on one key leaves the value of the last pair with that key, or the start value when no pair has it |
| MetadataElements.LastValueIsLast | jfr-reader/src/metadata.rs:297-313 | a repeated attribute takes its last value, and the value is missing exactly when no pair has the key |
| MetadataElements.Without | jfr-reader/src/metadata.rs:226-233 | the pairs kept as annotation values are exactly those whose key is not `class`, and fewer when `class` occurs |
| MetadataElements.Required | jfr-reader/src/metadata.rs:323-327 | a mandatory attribute succeeds exactly when present, with its value, and otherwise reports the given message |
| MetadataElements.ParseId | jfr-reader/src/metadata.rs:328-333 | `i64::from_str` succeeds exactly when the text is a decimal `i64`, with that value, and otherwise reports the given message |
| MetadataElements.KindOf | jfr-reader/src/metadata.rs:682-818 | the name selects a kind whose name it is, or no kind at all when no kind has that name |
| MetadataElements.KindOfName | jfr-reader/src/metadata.rs:823-833 | every kind is selected by the name `RawElement::name` gives it, so the two are inverse |
| MetadataElements.SortClassChildren | jfr-reader/src/metadata.rs:691-709 | a class's children are accepted exactly when each is an annotation, field or setting, and then split into those three lists in order; otherwise the first other child is reported |
| MetadataElements.AnnotationChild | jfr-reader/src/metadata.rs:722-731 | a child of a field or setting is accepted exactly when it is an annotation |
| MetadataElements.ClassChildOfMetadata | jfr-reader/src/metadata.rs:742-751 | a child of the metadata element is accepted exactly when it is a class |
| MetadataElements.RootChildren | jfr-reader/src/metadata.rs:766-781 | the root's children are accepted exactly when each is a metadata or region element, and the last of each kind is kept |
| MetadataElements.ClassifyLeaves | jfr-reader/src/metadata.rs:683-685 | annotation and region elements take their attributes and ignore their children |
| MetadataElements.ClassifyClass | jfr-reader/src/metadata.rs:686-717 | a class element succeeds exactly when all its children are annotations, fields or settings, holding them sorted by kind in order |
| MetadataElements.ClassifyAnnotated | jfr-reader/src/metadata.rs:718-738 | a field or setting element succeeds exactly when all its children are annotations, and holds all of them in order |
| MetadataElements.ClassifyMetadata | jfr-reader/src/metadata.rs:739-758 | the metadata element succeeds exactly when all its children are classes, and holds all of them in order |
| MetadataElements.ClassifyRoot | jfr-reader/src/metadata.rs:762-795 | the root succeeds exactly when its children are metadata and region elements with at least one of each, keeping the last of each |
| MetadataElements.FromRecordNamed | jfr-reader/src/metadata.rs:665-682 | a converted element's name is the inline text its name index resolves to and it keeps the record's attributes; a failing child fails the element first |
| MetadataElements.FromRecordUnknownName | jfr-reader/src/metadata.rs:818 | a name that selects no kind is `ElementNameUnknown` with that name |
| MetadataElements.FromRecordListEach | jfr-reader/src/metadata.rs:667-671 | converting the children converts each of them in order, failing with the first failure |
| MetadataElements.AnnotationFromRaw | jfr-reader/src/metadata.rs:217-244 | an annotation without attributes reports the missing type id instead of panicking, and no failure is a panic |
| MetadataElements.AnnotationAttributes | jfr-reader/src/metadata.rs:219-243 | a converted annotation's type id is its last `class` attribute read as an integer, and its values are exactly the other attributes in order |
| MetadataElements.AnnotationFromRawAsWritten | jfr-reader/src/metadata.rs:220 | the code as written agrees with the corrected conversion on every annotation with attributes, and panics exactly on the one without |
| MetadataElements.EmptyAnnotationPanics | jfr-reader/src/metadata.rs:220 | on the empty annotation the code as written panics, where the corrected conversion reports the missing type id |
| MetadataElements.ConvertAnnotations | jfr-reader/src/metadata.rs:276-280 | the annotations of a class, field or setting convert only when none is empty, each as the annotation conversion gives it; the result is a panic exactly when an empty annotation comes before any other failing one |
| MetadataElements.FirstFailurePanics | jfr-reader/src/metadata.rs:276-280 | the first annotation that fails fails with a panic exactly when some empty annotation is reached before any other failing one |
| MetadataElements.OptionalId | jfr-reader/src/metadata.rs:431-440 | an absent optional integer is `None`; a present one succeeds exactly when it parses, with that value |
| MetadataElements.FieldFromPairs | jfr-reader/src/metadata.rs:419-448 | a field keeps the annotations given and fails with "field lacks name attribute" when no pair names it |
| MetadataElements.FieldPairs | jfr-reader/src/metadata.rs:397-448 | a field takes its last name and class, and its dimension and constant pool are absent exactly when no pair names them |
| MetadataElements.FieldFromRaw | jfr-reader/src/metadata.rs:381-449 | a converted field has one annotation per raw annotation, none of them empty, each as the annotation conversion gives it, and is the field its resolved attributes give; an empty annotation reached before any other failing one panics |
| MetadataElements.FieldKeys | jfr-reader/src/metadata.rs:397-416 | a converted field's attribute keys are all among `name`, `class`, `dimension` and `constantPool` |
| MetadataElements.ArrayTypeFromDimension | jfr-reader/src/metadata.rs:451-454 | a field is an array exactly when its last dimension attribute is a positive integer |
| MetadataElements.SettingFromPairs | jfr-reader/src/metadata.rs:621-642 | a setting keeps the annotations given and fails with "setting lacks name attribute" when no pair names it |
| MetadataElements.SettingPairs | jfr-reader/src/metadata.rs:602-642 | a setting takes the last name, class and default value |
| MetadataElements.SettingNeedsAll | jfr-reader/src/metadata.rs:621-635 | a setting lacking its name, class or default value is refused |
| MetadataElements.SettingFromRaw | jfr-reader/src/metadata.rs:587-643 | a converted setting has one annotation per raw annotation, none of them empty, and is the setting its resolved attributes give; an empty annotation reached before any other failing one panics |
| MetadataElements.ClassFromPairs | jfr-reader/src/metadata.rs:323-343 | a class keeps the annotations, fields and settings given and fails with "class lacks name attribute" when no pair names it |
| MetadataElements.ClassPairs | jfr-reader/src/metadata.rs:297-343 | a class takes its last name and id, and its super and simple types are absent exactly when no pair names them |
| MetadataElements.ClassFromRaw | jfr-reader/src/metadata.rs:275-344 | a converted class has one annotation, field and setting per raw one, each converted by its own `from_raw`, none of its annotations empty, and its attributes resolve; an empty annotation reached before any other failing one panics |
| MetadataElements.AllAnnotationsMember | jfr-reader/src/metadata.rs:350-355 | `all_annotations` lists an annotation exactly when the class, one of its fields or one of its settings carries it, the class's own first |
| MetadataElements.MetadataFromRaw | jfr-reader/src/metadata.rs:471-485 | metadata converts each class in order and is refused when it carries attributes |
| MetadataElements.RegionFromPairs | jfr-reader/src/metadata.rs:525-532 | a region is built exactly when both `locale` and `gmtOffset` are present |
| MetadataElements.RegionPairs | jfr-reader/src/metadata.rs:505-532 | a region takes the last locale and the last GMT offset |
| MetadataElements.RegionFromRaw | jfr-reader/src/metadata.rs:501-533 | a converted region is the one its resolved attributes give, with only `locale` and `gmtOffset` accepted as keys |
| MetadataElements.RootFromRaw | jfr-reader/src/metadata.rs:553-564 | the root converts its metadata, then its region, and is refused when it carries attributes; a metadata failure comes first |
| MetadataElements.ElementFromRaw | jfr-reader/src/metadata.rs:871-881 | a converted element is a root exactly when the raw one is, and a raw root converts exactly when its own `from_raw` does, to the same root; a raw annotation panics exactly when it has no attributes, and otherwise converts as the annotation conversion gives it |
| MetadataElements.ClassMap | jfr-reader/src/metadata.rs:943-947 | the class map's keys are exactly the classes' ids |
| MetadataElements.ClassMapLastWins | jfr-reader/src/metadata.rs:945-947 | under each id the map holds the last class with that id |
| MetadataElements.FromMetadataRecords | jfr-reader/src/metadata.rs:925-955 | conversion succeeds only when the root record types as a root; the class map covers exactly its classes and the header and strings are kept |
| MetadataElements.ParseMetadata | jfr-reader/src/metadata.rs:913-919 | a metadata event parses its records then converts them; a records failure is passed on, and the rest of the input is returned |
| Chunk.ReadFieldsLength | jfr-reader/src/chunk.rs:92-101 | the header's field reads succeed exactly when the input holds all the fields, and the rest starts right after the last one |
| Chunk.ReadFieldsValues | jfr-reader/src/chunk.rs:92-101 | each field read is the big-endian number in that field's own byte range |
| Chunk.FieldsRoundTrip | jfr-reader/src/chunk.rs:92-101 | field values that fit their widths, written big-endian, read back whatever follows them |
| Chunk.HeaderBounds | jfr-reader/src/chunk.rs:40-79 | the values that fit the header's widths fit its `u16`, `u64` and `u32` field types |
| Chunk.ParseChunkHeader | jfr-reader/src/chunk.rs:90-91 | input not starting with the magic `FLR\0` is a `Tag` error, and a parsed header always followed the magic |
| Chunk.FieldOffsets | jfr-reader/src/chunk.rs:85 | the ten fields take the 64 bytes after the magic, the 68-byte `HEADER_SIZE` in all |
| Chunk.ChunkHeaderLayout | jfr-reader/src/chunk.rs:90-118 | a header parses exactly when the input starts with the magic and holds 68 bytes, consumes exactly those, and each field is read from its own big-endian range |
| Chunk.ChunkHeaderRoundTrip | jfr-reader/src/chunk.rs:90-118 | every header, whatever its version, sizes and offsets, reads back: nothing but a wrong magic is rejected |
| Chunk.MetadataEvent | jfr-reader/src/chunk.rs:215-222 | the metadata header at the front of the raw metadata is read, and the event is cut at its declared size, `i32 as usize` |
| Chunk.NewSliceReader | jfr-reader/src/chunk.rs:202-233 | a header failure is passed on with its context; a reader keeps the parsed header, the chunk cut at `chunk_size`, and the metadata cut inside it |
| Chunk.CutChunk | jfr-reader/src/chunk.rs:206-222 | the chunk is cut at `chunk_size` and the metadata read from `metadata_position` inside it |
| Chunk.ReaderFrom | jfr-reader/src/chunk.rs:210-232 | once both cuts fit, the reader's metadata event is read from `metadata_position` on |
| Chunk.ReaderLayout | jfr-reader/src/chunk.rs:206-222 | a reader's metadata event is the first `size` bytes from `metadata_position` on, and lies inside the chunk |
| Chunk.MetadataEventLayout | jfr-reader/src/chunk.rs:216-222 | the metadata header a reader keeps is the one at the front of its metadata event |
| Chunk.ReaderMetadata | jfr-reader/src/chunk.rs:261-266 | a reader's metadata succeeds exactly when its metadata event decodes, and is the decoded metadata |
| Chunk.FramedNext | jfr-reader/src/chunk.rs:282-289 | the bytes a record frames, followed by where the cursor goes next, are the input |
| Chunk.ScanRecords | jfr-reader/src/chunk.rs:276-291 | the iteration yields nothing exactly when it has no steps left or the remaining data is empty |
| Chunk.ScanConsumed | jfr-reader/src/chunk.rs:276-291 | the records returned are the data's first bytes in order, and all of it once the iteration stops by itself |
| Chunk.ScanRecordsCursor | jfr-reader/src/chunk.rs:282-288 | each item is the record parsed right where the records before it end |
| Chunk.ScanErrorRepeats | jfr-reader/src/chunk.rs:288 | an error is returned again for as long as the iteration runs: the cursor never moves past it |
| Chunk.IterEventRecords | jfr-reader/src/chunk.rs:272-292 | the events start right after the 68-byte header, the slice panics exactly when the chunk is shorter, and the records returned frame the rest in order |
| Chunk.UndersizedRecordStalls | jfr-reader/src/chunk.rs:282-286 | a record declaring size 0 leaves the cursor where it was, so the same record is returned for as long as the iteration runs |
| Chunk.ScanEnds | jfr-reader/src/chunk.rs:278-291 | a record parser that always consumes bytes makes the iteration report an error or stop within one more step than there are bytes |
| Chunk.CheckedScanEnds | jfr-reader/src/chunk_event.rs:110-128 | with the record-size check, the iteration reports an error or frames all the data and stops within one more step than there are bytes |
| Chunk.CheckpointAt | jfr-reader/src/chunk.rs:241-249 | an offset past the chunk is an incomplete-input error; otherwise the checkpoint is the constant-pool event parsed at that offset |
| Chunk.ChainVisits | jfr-reader/src/chunk.rs:301-319 | each visit adds the previous checkpoint's delta to the offset, reads the checkpoint at that offset, an overflowing sum is the last visit, and no visit has a zero delta |
| Chunk.ChainStops | jfr-reader/src/chunk.rs:305-307 | the chain stops before its step budget only at a zero delta |
| Chunk.ConstantPoolVisits | jfr-reader/src/chunk.rs:301-310 | the first checkpoint is read at the header's `constant_pool_position` (`u64 as i64`), and there is none exactly when that position is 0 |
| Chunk.ChainEndsAtZeroDelta | jfr-reader/src/chunk.rs:305-313 | a checkpoint whose own delta is zero is the last one visited |
| Chunk.CollectVisits | jfr-reader/src/chunk.rs:167-169 | the collected checkpoints succeed exactly when every visit does, one per visit in order, and otherwise fail with the error of the first visit that fails |
| Chunk.ConstantPools | jfr-reader/src/chunk.rs:164-172 | the checkpoints collected for the resolver: with a zero delta reached within the step budget, one checkpoint per visit in order; otherwise the error of the first failing visit; no result exactly when the budget runs out with every visit successful |
| Chunk.Chain | jfr-reader/src/chunk.rs:298-320 | no more visits than the step budget, and none exactly when the budget is zero or the first delta is zero |
| Chunk.ScanStalls | jfr-reader/src/chunk.rs:282-286 | a record that leaves the cursor where it was is returned at every step for as long as the iteration runs |
| Chunk.CheckedFrames | jfr-reader/src/chunk_event.rs:110-128 | with the record-size check, a parsed record is the bytes it consumed and always consumes at least one byte |
| Values.Get | jfr-reader/src/resolver.rs:120-130 | a stored entry is returned; otherwise index 0 is null and any other index is missing, whether or not the class is known |
| Values.MapConstant | jfr-reader/src/resolver.rs:63-67 | null and missing pass through unchanged and only an entry is transformed |
| Values.GetRecursive | jfr-reader/src/resolver.rs:41-49 | a stored entry is returned with its references expanded; null and missing are as for `get` |
| Values.GetMapped | jfr-reader/src/resolver.rs:57-68 | a stored entry is returned through the conversion; null and missing are as for `get` |
| Values.StringOf | jfr-reader/src/resolver.rs:76-88 | the conversion succeeds exactly on a string primitive, giving its text, and names the two ways it can fail |
| Values.GetString | jfr-reader/src/resolver.rs:74-92 | without a string class every lookup is missing; with one, a lookup is that class's entry converted to text, null at index 0 when absent |
| Values.GetStoredString | jfr-reader/src/resolver.rs:74-92 | a stored string primitive under the string class is returned as its text |
| Values.LastValue | jfr-reader/src/resolver.rs:294-296 | the value of the last pair for an index, with no later pair for it, or none exactly when no pair has the index |
| Values.LastIn | jfr-reader/src/resolver.rs:290-297 | across the groups, later groups first, the last value for a class and index, or none exactly when no group of that class has the index |
| Values.InsertValuesLookup | jfr-reader/src/resolver.rs:294-296 | after inserting pairs an index is present exactly when some pair or the start had it, and the last pair wins |
| Values.InsertGroupsLookup | jfr-reader/src/resolver.rs:290-297 | after inserting groups the last pair for a class and index, in list order, wins; otherwise the start is kept |
| Values.InsertGroupsConcat | jfr-reader/src/resolver.rs:290-297 | inserting one list of groups and then another is inserting both lists one after the other |
| Values.MergeIsCollect | jfr-reader/src/resolver.rs:287-306 | the merge fails with the first pool that fails to resolve; otherwise it inserts every pool's groups in order |
| Values.GetAfterMerge | jfr-reader/src/resolver.rs:287-306 | after a successful merge a lookup finds the last value for the class and index over all pools in order, and null or missing otherwise |
| Time.NewTimeResolver | jfr-reader/src/resolver.rs:154-167 | the resolver keeps the header's start ticks and rate, and reads the epoch nanoseconds as `i64` (wrapping above 2^63) |
| Time.CheckedSub | jfr-reader/src/resolver.rs:172 | `i64` subtraction succeeds exactly when the difference fits, and otherwise panics with the overflow message |
| Time.CheckedAdd | jfr-reader/src/resolver.rs:184 | `i64` addition succeeds exactly when the sum fits, and otherwise panics with the overflow message |
| Time.TicksPerNanosecond | jfr-reader/src/resolver.rs:174 | the divisor is the whole number of ticks per nanosecond, the fraction dropped |
| Time.TicksToNanoseconds | jfr-reader/src/resolver.rs:174 | fewer than 10^9 ticks per second panics with division by zero; otherwise the quotient truncates toward zero |
| Time.DeltaNanoseconds | jfr-reader/src/resolver.rs:199-202 | the tick difference overflowing panics; otherwise it is divided by the whole ticks per nanosecond |
| Time.ChunkStartDeltaNanoseconds | jfr-reader/src/resolver.rs:171-175 | the nanoseconds from the chunk's start ticks, read as `i64`, to the given ticks |
| Time.EpochNanoseconds | jfr-reader/src/resolver.rs:183-185 | a failing offset is passed on; otherwise the chunk's start time plus the offset, checked for overflow |
| Time.ChunkStartIsDelta | jfr-reader/src/resolver.rs:171-202 | the offset from the chunk start is the delta from the start ticks |
| Time.DeltaOfSameTicks | jfr-reader/src/resolver.rs:199-202 | equal ticks are zero nanoseconds apart, unless the rate is below 10^9 ticks per second, when every conversion panics |
| Time.EpochAtStartTicks | jfr-reader/src/resolver.rs:183-185 | the chunk's start ticks map to the chunk's start time |
| Time.DeltaAntisymmetric | jfr-reader/src/resolver.rs:199-202 | swapping the ticks negates the delta, because the division truncates toward zero |
| Time.DeltaMonotone | jfr-reader/src/resolver.rs:199-202 | later ticks are never earlier in time |
| Time.ExactDeltaNanoseconds | jfr-reader/src/resolver.rs:199-202 | the corrected conversion: the tick difference times 10^9 over the rate, truncated toward zero |
| Time.ExactAgreesOnWholeRates | jfr-reader/src/resolver.rs:199-202 | when the rate is a whole number of ticks per nanosecond the conversion as written and the corrected one agree |
| Time.FractionalRateSkews | jfr-reader/src/resolver.rs:199-202 | at 1.5 ticks per nanosecond one second of ticks comes out as 1.5 seconds as written, and as one second corrected |
| Resolver.ClassMapIds | jfr-reader/src/resolver.rs:238-245 | under each key the class map holds a class with that id |
| Resolver.PrimitiveParsers | jfr-reader/src/resolver.rs:249-255 | a class gets a parser exactly when `Primitive::resolve_parser` knows its name, and the parser is the one for that name |
| Resolver.NewEventResolver | jfr-reader/src/resolver.rs:231-263 | the classes are keyed by their ids, the pools are kept in order, and exactly the classes with a primitive name get that name's parser |
| Resolver.ClassId | jfr-reader/src/resolver.rs:275-279 | a found id comes from the iteration order and names a class of that name; none is found exactly when no class in that order has the name |
| Resolver.ClassIdFinds | jfr-reader/src/resolver.rs:275-279 | when the order lists every key, `class_id` finds a class exactly when one has that name |
| Resolver.ParseValue | jfr-reader/src/resolver.rs:367-403 | a decoded value has the shape its class describes, and a class that is neither primitive nor known is `ClassNotFound` |
| Resolver.ParseFields | jfr-reader/src/resolver.rs:389-398 | one value per field, in declaration order, each of that field's shape |
| Resolver.ParseField | jfr-reader/src/resolver.rs:390-394 | an array field goes through the array reader, any other through the single reader, and the value has the field's shape |
| Resolver.ParseFieldArray | jfr-reader/src/resolver.rs:433-449 | an `i32` varint length then exactly that many single values; a failing length read is passed on |
| Resolver.ParseElements | jfr-reader/src/resolver.rs:442-446 | the array loop yields exactly the requested number of single values of the field's shape |
| Resolver.ParseFieldSingle | jfr-reader/src/resolver.rs:409-427 | a pool field is one `i64` varint kept as a reference under the field's type; anything else is a value of the field's type |
| Resolver.PrimitiveClassDecodes | jfr-reader/src/resolver.rs:375-379 | a class with a primitive name decodes, or fails, exactly as that name's primitive parser does |
| Resolver.ParseEventObject | jfr-reader/src/resolver.rs:342-356 | an event is the decoded value when it is an object of the class; a primitive class yields the event parse error instead |
| Resolver.ValueRoundTrip | jfr-reader/src/resolver.rs:367-403 | every writable value of a class reads back from its bytes, whatever follows, given enough nesting fuel |
| Resolver.FieldsRoundTrip | jfr-reader/src/resolver.rs:389-398 | the field values of an object, written in order, read back in order |
| Resolver.FieldRoundTrip | jfr-reader/src/resolver.rs:390-394 | one field's value, written, reads back through that field |
| Resolver.ElementsRoundTrip | jfr-reader/src/resolver.rs:442-446 | the elements of an array, written in order, read back in order |
| Resolver.SingleRoundTrip | jfr-reader/src/resolver.rs:409-427 | a single value reads back: a pool reference as its index, anything else as a value of the field's type |
| Resolver.ConstantPoolValuesOf | jfr-reader/src/resolver.rs:287-306 | the table is built exactly when every pool resolves, by merging their groups in order, and the string class id is looked up by `class_id("java.lang.String")` |
| Resolver.ConstantPoolLookup | jfr-reader/src/resolver.rs:287-306 | a lookup in the built table finds the last value for the class and index over all pools in order, null at index 0 and missing otherwise |
| Units.UnitOf | jfr-reader/src/settings.rs:48-58 | the seven unit arms: a unit is found exactly for `ns`, `us`, `ms`, `s`, `m`, `h`, `d`, and the found unit's symbol is the text |
| Units.UnitOfSymbol | jfr-reader/src/settings.rs:48-58 | every unit is found again from its own symbol |
| Units.FromStrU64 | jfr-reader/src/settings.rs:44-46 | `u64::from_str` reports `Empty` exactly for the empty text |
| Units.DigitScanValue | jfr-reader/src/settings.rs:44-46 | the digit scan yields a value exactly when the whole text is decimal digits whose value fits in 64 bits, and that value is the decimal reading |
| Units.FromStrAgrees | jfr-reader/src/settings.rs:44-46 | `u64::from_str` succeeds exactly when the decimal reading of the text is defined, and then yields it |
| Units.FromStrShow | jfr-reader/src/settings.rs:44-46 | the decimal text of every 64-bit value reads back as that value |
| Units.ParseQuantity | jfr-reader/src/settings.rs:40-58 | a text without the separator is reported as such; a bad count is reported before a bad unit, and a bad unit is one outside the seven symbols, taken after the first separator |
| Units.QuantityRoundTrip | jfr-reader/src/settings.rs:40-58 | a count and unit printed with a non-digit separator read back as that count and unit |
| Annotations.FirstValue | jfr-reader/src/annotations.rs:438-441 | the first value is returned exactly when the element has a value; otherwise the error is `AnnotationParse` with the "lacks" message |
| Annotations.ReadTimed | jfr-reader/src/annotations.rs:443-466 | the keyword gives the keyword variant and nothing else does; text without the separator is kept as other text, unchanged |
| Annotations.ReadTimedText | jfr-reader/src/annotations.rs:443-466 | a timed value written out and read back gives itself back |
| Annotations.PeriodFromElement | jfr-reader/src/annotations.rs:436-468 | no value is "jdk.jfr.Period lacks value"; every error is an annotation error; `everyChunk` is the keyword; text without a space is kept as other text |
| Annotations.ThresholdFromElement | jfr-reader/src/annotations.rs:588-616 | no value is "jdk.jfr.Threshold lacks value"; there is no keyword; text without a space is kept as other text |
| Annotations.CutoffFromElement | jfr-reader/src/annotations.rs:771-804 | no value is "jdk.jfr.internal.Cutoff lacks value"; `infinity` is the keyword; text without a space is kept as other text |
| Annotations.ThrottleFromElement | jfr-reader/src/annotations.rs:848-881 | no value is "jdk.jfr.internal.Throttle lacks value"; `off` is the keyword; the separator is `/`; text without it is kept as other text |
| Annotations.PeriodRoundTrip | jfr-reader/src/annotations.rs:436-468 | every period written out as a single value reads back as itself |
| Annotations.ThresholdRoundTrip | jfr-reader/src/annotations.rs:588-616 | every threshold written out as a single value reads back as itself |
| Annotations.CutoffRoundTrip | jfr-reader/src/annotations.rs:771-804 | every cutoff written out as a single value reads back as itself |
| Annotations.ThrottleRoundTrip | jfr-reader/src/annotations.rs:848-881 | every throttle written out as a single value reads back as itself |
| Annotations.DataAmountFromElement | jfr-reader/src/annotations.rs:146-159 | fails exactly without a value, with "lacks a value"; the result writes back as the first value; it is other text exactly when that value is neither `BITS` nor `BYTES` |
| Annotations.TimespanFromElement | jfr-reader/src/annotations.rs:638-654 | fails exactly without a value; the result writes back as the first value; it is other text exactly when that value is none of the five unit names |
| Annotations.TimestampFromElement | jfr-reader/src/annotations.rs:673-686 | fails exactly without a value; the result writes back as the first value; it is other text exactly when that value is neither `MILLISECONDS_SINCE_EPOCH` nor `TICKS` |
| Annotations.EnabledFromElement | jfr-reader/src/annotations.rs:215-231 | succeeds exactly when the first value is `true` or `false`, holding whether it is `true`; any other value is the "illegal value" error naming it |
| Annotations.CategoryFromElement | jfr-reader/src/annotations.rs:98-105 | the category is every value of the element, in order, without its key |
| Annotations.BuiltinsComplete | jfr-reader/src/annotations.rs:1043-1071 | the match has an arm for every parser except `from_unknown` |
| Annotations.FindArm | jfr-reader/src/annotations.rs:1043-1071 | the arm found carries the class name; `from_unknown` is chosen exactly when no later arm has the name |
| Annotations.ResolveParser | jfr-reader/src/annotations.rs:1037-1073 | the flag is set exactly when the name is one of the 27 built-in class names, and then the parser is the one of that name; otherwise it is `from_unknown` |
| Annotations.ApplyFixed | jfr-reader/src/annotations.rs:916-1030 | the parsers that read no text always succeed, producing their own kind of value |
| Annotations.ApplyTimed | jfr-reader/src/annotations.rs:970-1026 | the timed parsers produce their own kind of value, fail without a value, and fail only with annotation errors |
| Annotations.ApplyText | jfr-reader/src/annotations.rs:928-1003 | the other value-reading parsers produce their own kind of value, fail without a value, and fail only with annotation errors |
| Annotations.Apply | jfr-reader/src/annotations.rs:916-1030 | a parser produces its own kind of value; only a parser that reads a value can fail, it fails without one, and only with an annotation error |
| Annotations.FromElements | jfr-reader/src/annotations.rs:1077-1091 | a class-id mismatch is an error; an unknown class name keeps the raw values; a result is built-in exactly when the class name is known, and comes from that name's parser |
| Settings.AmountText | jfr-reader/src/settings.rs:40-58 | an amount's text is its decimal count followed by the separator |
| Settings.TimespanFromStr | jfr-reader/src/settings.rs:33-62 | `infinity` exactly gives infinity; text without a space is the "invalid format" error; every error is a setting error; an amount comes from a count before the first space |
| Settings.TimespanRoundTrip | jfr-reader/src/settings.rs:33-62 | every timespan written out reads back as itself |
| Settings.BoolFromStr | jfr-reader/src/settings.rs:96-108 | exactly `true` and `false` are accepted, holding whether it is `true`; any other text is the "illegal value" error naming it |
| Settings.PeriodFromStr | jfr-reader/src/settings.rs:125-159 | each of the three keywords gives its variant and nothing else does; text without a space is the "illegal format" setting error; a bad count or unit is an annotation error |
| Settings.PeriodRoundTrip | jfr-reader/src/settings.rs:125-159 | every period written out reads back as itself |
| Settings.ThrottleFromStr | jfr-reader/src/settings.rs:220-251 | `off` exactly gives off; text without `/` is the "invalid format" setting error; with `/`, every error is an annotation error |
| Settings.ThrottleRoundTrip | jfr-reader/src/settings.rs:220-251 | every throttle written out reads back as itself |
| Settings.ResolveParser | jfr-reader/src/settings.rs:310-325 | the flag is set exactly for the six setting names, and then the parser carries that name; otherwise it is `from_unknown` |
| Settings.Apply | jfr-reader/src/settings.rs:272-305 | a parser produces its own kind of value, and `from_unknown` keeps the default value's text and never fails |
| Settings.FromElement | jfr-reader/src/settings.rs:330-334 | an unknown name keeps the default value's text; a result comes from that name's parser, and a known kind of value only from a known name |
| Settings.ParserOf | jfr-reader/src/settings.rs:262-305 | every known value has a parser that produces it |
| Settings.ResolveParserName | jfr-reader/src/settings.rs:310-325 | every known parser is found again under its own name |
| Settings.ApplyRoundTrip | jfr-reader/src/settings.rs:272-305 | a known value written out as a default value parses back with its own parser |
| Settings.FromElementRoundTrip | jfr-reader/src/settings.rs:330-334 | a setting named for a known value's parser, whose default value is that value written out, parses back to that value |
| Sorting.NameLeTotal | jfr-metadata-xml/src/lib.rs:102 | any two names are ordered one way or the other |
| Sorting.NameLeTrans | jfr-metadata-xml/src/lib.rs:102 | the name order is transitive |
| Sorting.NameLeAntisymmetric | jfr-metadata-xml/src/lib.rs:102 | two names ordered both ways are equal |
| Sorting.InsertBy | jfr-metadata-xml/src/lib.rs:102 | inserting into a sorted sequence adds exactly that element and keeps it sorted by key |
| Sorting.SortBy | jfr-metadata-xml/src/lib.rs:101-102 | the result is a permutation of the input, sorted by key |
| MetadataXml.FilterMapMembers | jfr-metadata-xml/src/lib.rs:46-54 | an item is selected exactly when the mapping gives it for some element |
| MetadataXml.FilterMapConcat | jfr-metadata-xml/src/lib.rs:46-54 | selecting from two concatenated pieces selects from each, in order |
| MetadataXml.Events | jfr-metadata-xml/src/lib.rs:46-54 | an event is listed exactly when the document holds it as an `Event` element |
| MetadataXml.Types | jfr-metadata-xml/src/lib.rs:57-65 | a type is listed exactly when the document holds it as a `Type` element |
| MetadataXml.XmlTypes | jfr-metadata-xml/src/lib.rs:68-76 | an XML type is listed exactly when the document holds it as an `XmlType` element |
| MetadataXml.XmlContentTypes | jfr-metadata-xml/src/lib.rs:79-87 | a content type is listed exactly when the document holds it as an `XmlContentType` element |
| MetadataXml.EventsInOrder | jfr-metadata-xml/src/lib.rs:46-54 | the events of a document in two parts are those of the first part, then those of the second |
| MetadataXml.TypesInOrder | jfr-metadata-xml/src/lib.rs:57-65 | the types of a document in two parts are those of the first part, then those of the second |
| MetadataXml.XmlTypesInOrder | jfr-metadata-xml/src/lib.rs:68-76 | the XML types of a document in two parts are those of the first part, then those of the second |
| MetadataXml.XmlContentTypesInOrder | jfr-metadata-xml/src/lib.rs:79-87 | the content types of a document in two parts are those of the first part, then those of the second |
| MetadataXml.FilterMapSnoc | jfr-metadata-xml/src/lib.rs:46-54 | selecting from one more element appends what the mapping gives for it, if anything |
| MetadataXml.EventsSnoc | jfr-metadata-xml/src/lib.rs:46-54 | each further `Event` element adds its event once, at the end, and any other element adds nothing |
| MetadataXml.TypesSnoc | jfr-metadata-xml/src/lib.rs:57-65 | each further `Type` element adds its type once, at the end, and any other element adds nothing |
| MetadataXml.XmlTypesSnoc | jfr-metadata-xml/src/lib.rs:68-76 | each further `XmlType` element adds its XML type once, at the end, and any other element adds nothing |
| MetadataXml.XmlContentTypesSnoc | jfr-metadata-xml/src/lib.rs:79-87 | each further `XmlContentType` element adds its content type once, at the end, and any other element adds nothing |
| MetadataXml.Find | jfr-metadata-xml/src/lib.rs:91 | nothing is found exactly when no element satisfies the test; what is found is the first element that does |
| MetadataXml.FindType | jfr-metadata-xml/src/lib.rs:90-92 | nothing is found exactly when no type has the name; a found type has the name, is in the document, and no type listed before it has the name |
| MetadataXml.FindXmlType | jfr-metadata-xml/src/lib.rs:95-97 | nothing is found exactly when no XML type has the name; a found XML type has the name, is in the document, and no XML type listed before it has the name |
| MetadataXml.EventsSorted | jfr-metadata-xml/src/lib.rs:100-105 | the events, permuted into name order |
| MetadataXml.TypesSorted | jfr-metadata-xml/src/lib.rs:108-113 | the types, permuted into name order |
| RustCodegen.JavaTypeMap | jfr-reader/src/metadata_xml.rs:39-54 | exactly the thirteen Java type names map, and the mapping is nullable exactly for `java.lang.String` |
| RustCodegen.IntegralNaming | jfr-reader/src/metadata_xml.rs:40-47 | an integral Java type maps to `i` or `u` by `unsigned`, followed by its width |
| RustCodegen.UnsignedIgnored | jfr-reader/src/metadata_xml.rs:48-53 | `unsigned` changes nothing for the non-integral Java types |
| RustCodegen.TypeToRustTypeCases | jfr-reader/src/metadata_xml.rs:33-61 | a name that a `Type` carries maps to that struct, nullable; otherwise the first `XmlType` of the name decides; a name nobody carries has no Rust type |
| RustCodegen.NullableIffTypeOrString | jfr-reader/src/metadata_xml.rs:33-61 | a mapped name is nullable exactly when a `Type` carries it or its first `XmlType` is a Java string |
| RustCodegen.BoxedExactly | jfr-reader/src/metadata_xml.rs:74-76 | a field is boxed exactly for the three hard-coded type and field pairs |
| RustCodegen.FieldShape | jfr-reader/src/metadata_xml.rs:69-88 | an array is a `Vec` of the type and nothing else; otherwise the type is boxed for the three pairs and wrapped in `Option` when nullable |
| RustCodegen.FieldType | jfr-reader/src/metadata_xml.rs:64-89 | the field fails exactly when its type does not map, with the type's name; otherwise it takes the shape of the mapped type |
| RustCodegen.FieldIdentifier | jfr-reader/src/metadata_xml.rs:92-101 | the identifier is the snake-cased name, with `r#` in front exactly for `type` and `virtual` |
| RustCodegen.FieldIdentifierRoundTrip | jfr-reader/src/metadata_xml.rs:92-101 | removing the raw prefix gives back the snake-cased name |
| RustCodegen.StructField | jfr-reader/src/metadata_xml.rs:104-121 | the field fails exactly when its type does not map; otherwise it is documented by its description or else its label, renamed to its own name and named by its identifier |
| RustCodegen.Collect | jfr-reader/src/metadata_xml.rs:133-137 | collecting succeeds exactly when every element succeeds, keeping each result in order |
| RustCodegen.CollectFirstFailure | jfr-reader/src/metadata_xml.rs:133-137 | a failed collection carries the error of the first element that fails |
| RustCodegen.StructFields | jfr-reader/src/metadata_xml.rs:133-137 | the fields are generated exactly when every field type maps, one per field in order; a failure names some field's type |
| RustCodegen.TypeStruct | jfr-reader/src/metadata_xml.rs:124-146 | a type's struct is generated exactly when its fields map, named after the type and documented by its label if any |
| RustCodegen.EventStruct | jfr-reader/src/metadata_xml.rs:149-173 | an event's struct is generated exactly when its fields map, named after the event and documented by its description or else its name |
| RustCodegen.EventsEnumItem | jfr-reader/src/metadata_xml.rs:188-208 | the `Events` enum is documented "All events" and has one variant per event, in name order, naming exactly the document's events |
| RustCodegen.EventPair | jfr-reader/src/metadata_xml.rs:224-225 | an event gives its struct and then its `EventType` impl exactly when its fields map |
| RustCodegen.FlattenPairs | jfr-reader/src/metadata_xml.rs:223-226 | the items of the `i`th event land at `2i` and `2i+1` |
| RustCodegen.AssembleLayout | jfr-reader/src/metadata_xml.rs:211-237 | the assembled file holds the two `use` items, then the type items, then the event items, then the enum |
| RustCodegen.MetadataToRs | jfr-reader/src/metadata_xml.rs:211-237 | a generated file starts with the two `use` items and ends with the `Events` enum, with one item per type and two per event between them |
| RustCodegen.MetadataToRsTypesLayout | jfr-reader/src/metadata_xml.rs:218-220 | after the `use` items come the type structs, in name order |
| RustCodegen.MetadataToRsEventAt | jfr-reader/src/metadata_xml.rs:223-226 | the `i`th event in name order has its struct after the types at `2i` and its impl right after it |
| RustCodegen.EventPairAt | jfr-reader/src/metadata_xml.rs:223-226 | the `i`th event pair is that event's struct and impl, and every pair has two items |
| RustCodegen.TypeItemsSucceed | jfr-reader/src/metadata_xml.rs:218-220 | the type structs are generated exactly when every field of every `Type` maps |
| RustCodegen.EventPairsSucceed | jfr-reader/src/metadata_xml.rs:223-226 | the event items are generated exactly when every field of every `Event` maps |
| RustCodegen.MetadataToRsSucceeds | jfr-reader/src/metadata_xml.rs:211-237 | generation succeeds exactly when every field type in the document maps |
| JvmAttach.PaddedArgs | jvm-attach/src/lib.rs:184-190 | exactly three arguments go out: the given ones first, missing ones empty, extra ones dropped |
| JvmAttach.Request | jvm-attach/src/lib.rs:188-197 | the request starts with the protocol version `1` and its NUL terminator |
| JvmAttach.UnframeCons | jvm-attach/src/lib.rs:191-196 | a framed text without NUL is read back first, then the rest is unframed |
| JvmAttach.FrameRoundTrip | jvm-attach/src/lib.rs:191-196 | texts without NUL come back out of their NUL-terminated framing unchanged |
| JvmAttach.RequestRoundTrip | jvm-attach/src/lib.rs:181-197 | the JVM reads back the version `1`, the command and exactly three arguments, the given ones first |
| JvmAttach.ReadLine | jvm-attach/src/lib.rs:245-256 | the bytes before the first newline, or all of them, and what follows that newline |
| JvmAttach.ReadInt | jvm-attach/src/lib.rs:241-262 | the line is `IntegerReadBadString` exactly when it is not UTF-8, `IntegerReadNotInteger` exactly when its text is not an `i32`, and otherwise the `i32` its text denotes; the rest of the stream is left unread |
| JvmAttach.ReadIntRoundTrip | jvm-attach/src/lib.rs:241-262 | an `i32` written in decimal and ended by a newline reads back, with the rest untouched |
| JvmAttach.ReadToString | jvm-attach/src/lib.rs:208-209 | the bytes are read as text exactly when they are UTF-8, and the text encodes back to them; otherwise the error is invalid data |
| JvmAttach.SendCommand | jvm-attach/src/lib.rs:203-212 | a status line that does not read fails with its error; status `0` is success with the rest of the reply; any other status is an error reply whose text is the rest |
| JvmAttach.SendCommandBytes | jvm-attach/src/lib.rs:216-226 | a success gives the rest of the reply; an error reply becomes `CommandError` with its text; a failure is passed on |
| JvmAttach.SendCommandString | jvm-attach/src/lib.rs:229-239 | succeeds exactly when the bytes result succeeds and is UTF-8, and the text encodes back to those bytes |
| JvmAttach.SuccessReplyRoundTrip | jvm-attach/src/lib.rs:216-226 | a `0` status line followed by output gives that output unchanged |
| JvmAttach.ErrorReplyRoundTrip | jvm-attach/src/lib.rs:216-226 | a non-zero status line followed by a message gives `CommandError` with that message |
| JvmAttach.GetOrDefault | jvm-attach/src/lib.rs:278-284 | a found namespace pid is returned; otherwise the given pid |
| JvmAttach.FirstTagged | jvm-attach/src/lib.rs:297-300 | nothing is found exactly when no line starts with `NSpid:`; what is found is the first such line |
| JvmAttach.TaggedHasField | jvm-attach/src/lib.rs:302-305 | a line starting with `NSpid:` always has a second `:`-separated field, so the "invalid syntax" error cannot arise |
| JvmAttach.TaggedValue | jvm-attach/src/lib.rs:297-305 | a value is found exactly when some line is tagged `NSpid:`, and it is the second field of the first such line |
| JvmAttach.NamespacePidAsWritten | jvm-attach/src/lib.rs:288-315 | no status file is `NoStatus`; no tagged line is `NoPid`; the trimmed field read as one `i32` is the pid; it fails exactly when that field does not read |
| JvmAttach.FirstTaggedAt | jvm-attach/src/lib.rs:297-300 | the first tagged line is the one after untagged lines |
| JvmAttach.StatusLines | jvm-attach/src/lib.rs:297 | lines without line breaks are read back from their text |
| JvmAttach.TaggedField | jvm-attach/src/lib.rs:302-305 | the second field of a tagged line is everything after the tag when it has no `:` |
| JvmAttach.TaggedValueOf | jvm-attach/src/lib.rs:297-305 | a status text whose first `NSpid:` line carries a value yields that value |
| JvmAttach.LastWord | jvm-attach/src/lib.rs:306-309 | the last white-space-separated word holds no white space and is part of the text |
| JvmAttach.LastWordAfter | jvm-attach/src/lib.rs:306-309 | the word after the last white space is the last word |
| JvmAttach.NamespacePidFromStatus | jvm-attach/src/lib.rs:288-315 | as written for a missing file and a missing tag; the pid is the last word of the tagged field, the innermost namespace's pid |
| JvmAttach.NamespacePidOfValue | jvm-attach/src/lib.rs:288-315 | a status text whose tagged field ends in the text of `v` gives the namespace pid `v` |
| JvmAttach.TabbedLast | jvm-attach/src/lib.rs:306-309 | the tab-separated pids end with the innermost pid as their last word |
| JvmAttach.InnermostOfValue | jvm-attach/src/lib.rs:288-315 | a tagged field listing the pid of every namespace level gives the innermost pid |
| JvmAttach.NamespacePidInnermost | jvm-attach/src/lib.rs:288-315 | whatever lines surround it, the first `NSpid:` line listing every level's pid gives the innermost pid |
| JvmAttach.TabbedFront | jvm-attach/src/lib.rs:306-309 | a tab and the outermost pid come first in the tab-separated pids |
| JvmAttach.TrimKeepsTab | jvm-attach/src/lib.rs:306-309 | trimming a leading tab, a word and a further tab keeps the inner tab, so no integer is read |
| JvmAttach.TrimmedTabbedNotInteger | jvm-attach/src/lib.rs:306-309 | two or more tab-separated pids, trimmed, do not read as one integer |
| JvmAttach.NestedNamespaceRejected | jvm-attach/src/lib.rs:302-309 | an `NSpid:` line listing two or more levels fails with "NSpid value not an integer" under the code as written |
| JvmAttach.PathsFor | jvm-attach/src/lib.rs:79-83 | both paths lie in `/proc/<pid>/root/tmp`, named `.attach_pid` and `.java_pid` |
| JvmAttach.PathsNamePid | jvm-attach/src/lib.rs:79-83 | the namespace pid reads back from the end of either path |
| JvmAttach.NewRequest | jvm-attach/src/lib.rs:74-101 | fails exactly when `namespace_pid` as written fails, with its status parse error; the namespace pid, or else the pid, names both paths; the trigger file is kept exactly when this request creates it |
| JvmAttach.NestedNamespaceRequestFails | jvm-attach/src/lib.rs:77 | a process whose `NSpid:` line lists two or more namespace levels cannot be attached to: the request fails with "NSpid value not an integer", where the corrected lookup gives the innermost pid |
| Text.SplitOnce | jfr-reader/src/settings.rs:40-42 | nothing exactly when the separator is absent; otherwise the text is the part before, the separator, then the part after, and the part before holds no separator |
| Text.SplitOnceAt | jfr-reader/src/settings.rs:40-42 | splitting at a separator with none before it gives back both halves |
| Text.SecondField | jvm-attach/src/lib.rs:302-305 | there is a second field exactly when the separator occurs, and it holds no separator |
| Text.Trim | jvm-attach/src/lib.rs:306 | the result is a slice of the text with only white space before and after it, and it neither starts nor ends with white space |
| Text.Lines | jvm-attach/src/lib.rs:297 | no line holds a newline, and there are no lines exactly when the text is empty |
| Text.LinesUnlines | jvm-attach/src/lib.rs:297 | lines without line-ending characters survive being joined and split again |
| Text.ShowNatValue | jvm-attach/src/lib.rs:82-83 | the decimal text of a number reads back as that number |
| Text.ParseInt | jvm-attach/src/lib.rs:308-309 | a text parses exactly when it is an accepted sign and one or more decimal digits whose signed value is in the type's range, and the result is that value |
| Text.ParseShowInt | jvm-attach/src/lib.rs:308-309 | parsing inverts printing for every value in range |
| Text.DigitsLeadingZero | jvm-attach/src/lib.rs:308-309 | a leading zero adds nothing to the value of a digit string |
| Text.ParseLeadingZero | jvm-attach/src/lib.rs:308-309 | leading zeros are accepted and ignored: `007` reads as `7` |
| Text.ParsePlus | jvm-attach/src/lib.rs:308-309 | a `+` before the digits is accepted and ignored: `+7` reads as `7` |
| Text.ParseMinus | jvm-attach/src/lib.rs:308-309 | for a signed type, `-` and digits read as the negated value of the digits when it is in range, and fail otherwise |
| Text.ParseMinusUnsigned | jfr-reader/src/settings.rs:44-46 | an unsigned type rejects every text that starts with `-` |
| Text.ParseI32 | jvm-attach/src/lib.rs:308-309 | a text parses exactly when it is an optional sign and decimal digits whose value fits in `i32`, and the result is that value |
| Text.ParseU64 | jfr-reader/src/settings.rs:44-46 | a parsed `u64` lies in the 64-bit unsigned range, and a leading `-` is rejected |
| Text.ParseI64 | jfr-reader/src/metadata.rs:328-330 | a text parses exactly when it is an optional sign and decimal digits whose value fits in `i64`, and the result is that value |

## Left out

- I/O: `FileReader`, the CLI, `Metadata::from_path`/`from_reader`, and every file, socket and process call in `jvm-attach`. The bytes a file or socket would yield are parameters instead.
- jvm-attach effects: creating and removing the trigger file, `UnixStream` connect/read/write, SIGQUIT signalling, the `try_connect` wait loop and `Drop`. Only the request bytes, reply parsing, status parsing and paths are modelled. The `NoSocket` error is never produced. I/O errors are not modelled.
- Floating point: `f32`/`f64` values are kept as their 4 or 8 big-endian bytes; no arithmetic is done on them.
- chrono time handling: `date_time`, `date_time_utc`, `delta_duration`, `chunk_start_delta_duration`, and `RegionElement::fixed_offset`, which is not part of this model. `Resolver.NewEventResolver` therefore cannot fail on the region's time zone.
- `metadata.xml` deserialisation (`Metadata::from_str` with quick_xml and serde): the model starts from the document's elements.
- Rust source generation: the quote/syn/prettyplease token streams are modelled as a list of items with their names, documentation and field types. Printing them and syn's parse errors are left out. convert_case's snake-casing is a parameter `snakeCase`.
- Error message text: messages are kept where the source builds them from constants or the input. Formatting of nested Rust errors (`{e}` of a `ParseIntError`) is reduced to its kind.
- Allocation failure and stack exhaustion: the recursion of value decoding and the checkpoint chain are bounded by a `fuel` parameter. Running out of fuel is an error, or the end of the list of steps, and stands for behaviour the source leaves unbounded.
- HashMap iteration order: which class `class_id(name)` returns when names repeat is a parameter `order`, a listing of the map's keys.
- `i64` overflow in tick arithmetic follows debug builds and is a `Panic`. An overflowing checkpoint offset sum is a `Panic` as well.
- `to_ne_bytes` in the char-array error payload is modelled little-endian, the byte order of the usual targets.
- `Value::resolve_constants`, `deserialize_enum`, `GenericEvent` and the `Object` internals are not part of this model. Values stay abstract: primitive, object (class id and fields), array, or a deferred constant-pool reference.
- The `parse_event`/`parse_event_value` wrappers are left out. They only call `ParseValue` with an event's class.
- The `get_class`, `class_name`, `class_ids_and_names` and `iter_class_ids` accessors of the resolver and metadata are plain map reads and are left out. The constant `class_name()`/`targets()` of each annotation type are left out too.
- chunk.rs:171 calls `EventResolver::new` with two arguments, while resolver.rs:231 takes three. The model follows resolver.rs and passes the chunk header as well.
- MetadataRecords.ParseChildren: there is no lemma relating it to `Nom.Count` of `ParseElement`. Each step is stated by `MetadataRecords.ChildrenCons` and the whole list by `MetadataRecords.ChildrenRoundTrip`.
- Resolver.ParseValue: the contract does not state that the rest of the input is a suffix, because the primitive parsers passed in do not promise it.
- Sorting.SortBy: stability (equal names keep their document order) is not stated, only the permutation and the order.
- The "invalid syntax for NSpid: entry" error of `namespace_pid` can never occur, so the model has no branch for it; `JvmAttach.TaggedHasField` shows why.
- The Throttle annotation's bad-unit message names `jdk.jfr.internal.Cutoff`, as annotations.rs:873 writes it; the model keeps that text rather than correcting it.

## Findings

The rest of the model follows the code as written, so each of these shows up in its callers. Each corrected member stands beside the as-written one, with the intended property proved about it.

| source | as written | input that shows it | evidently intended | confidence | as-written member | corrected member |
|---|---|---|---|---|---|---|
| jfr-reader/src/chunk_event.rs:110-128 | `EventRecord::parse` never checks that the declared size covers the record's own header. A size of 0 is accepted, consumes no bytes, and its `fields_data` slice starts past its end, which panics. The record iteration in chunk.rs:276-290 then returns the same record forever. | the record bytes `0x00 0x05` (size 0, type 5) | a size smaller than the header is an error, and every record consumes at least one byte | high; not executed | Events.UndersizedRecordAccepted | Events.ParseEventRecordChecked |
| jfr-reader/src/metadata.rs:220 | `attributes.len() - 1` underflows when an annotation element has no attributes, which panics. | an `annotation` element with no attributes | the missing `class` attribute is reported as an error, as for the other elements | high; not executed | MetadataElements.EmptyAnnotationPanics | MetadataElements.AnnotationFromRaw |
| jfr-reader/src/resolver.rs:199-202 | The rate `ticks_per_second / 1_000_000_000` is truncated before dividing, so a rate that is not a whole number of ticks per nanosecond skews every duration. | `ticks_per_second` = 1500000000, a tick difference of 1500000000 (one second) gives 1500000000 ns | the tick difference times 10^9, divided by `ticks_per_second` | medium; not executed | Time.FractionalRateSkews | Time.ExactAgreesOnWholeRates |
| jvm-attach/src/lib.rs:302-309 | In a nested pid namespace, the `NSpid:` line lists one pid per level, separated by tabs. The code trims the whole field and parses it as one `i32`, which fails. | the status line `NSpid:\t4242\t1` | the innermost pid, the last one listed (`1`) | high; not executed | JvmAttach.NestedNamespaceRejected | JvmAttach.NamespacePidInnermost |
