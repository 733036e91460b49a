/**
 * Java primitive values and their decoders (jfr-reader/src/primitive.rs;
 * jfr-reader/src/value.rs carries an identical copy of the same parsers).
 *
 * Floating-point values are kept as their IEEE 754 bit patterns: the model
 * reads the same bytes as `be_f32`/`be_f64` and never interprets them.
 */
module Primitives {
  import opened Ints
  import opened Errors
  import opened Nom
  import opened Leb128
  import Utf8
  import StringTable

  /** `Primitive`: one decoded Java primitive, or a `java.lang.String` in one of its three forms. */
  datatype Primitive =
    | Boolean(b: bool)
    | SignedByte(i8: I8)
    | Short(i16: I16)
    | Integer(i32: I32)
    | Long(i64: I64)
    | Float(f32Bits: U32)
    | Double(f64Bits: U64)
    | Character(c: char)
    | NullString
    | String(text: string)
    | StringConstantPool(index: I64)

  /** `parse_boolean`: one signed byte; any non-zero byte is true. */
  function ParseBoolean(s: seq<Byte>): (r: PResult<bool>)
    ensures r.POk? <==> |s| >= 1
    ensures r.POk? ==> (r.value <==> s[0] != 0) && r.rest == s[1..]
    ensures r.PErr? ==> r.err == Incomplete(Size(1))
  {
    match BeI8(s)
    case PErr(e) => PErr(e)
    case POk(v, s1) => POk(v != 0, s1)
  }

  /** `parse_float`: the four big-endian bytes of an `f32`. */
  function ParseFloatBits(s: seq<Byte>): (r: PResult<U32>)
    ensures r.POk? <==> |s| >= 4
    ensures r.POk? ==> r.value == BigEndian(s[..4]) && r.rest == s[4..]
    ensures r.PErr? ==> r.err == Incomplete(Size(4 - |s|))
  {
    match BeUnsigned(s, 4)
    case PErr(e) => PErr(e)
    case POk(v, s1) => Pow2Widths(); POk(v, s1)
  }

  /** `parse_double`: the eight big-endian bytes of an `f64`. */
  function ParseDoubleBits(s: seq<Byte>): (r: PResult<U64>)
    ensures r.POk? <==> |s| >= 8
    ensures r.POk? ==> r.value == BigEndian(s[..8]) && r.rest == s[8..]
    ensures r.PErr? ==> r.err == Incomplete(Size(8 - |s|))
  {
    match BeUnsigned(s, 8)
    case PErr(e) => PErr(e)
    case POk(v, s1) => Pow2Widths(); POk(v, s1)
  }

  /**
   * `parse_char`: an `i32` varint whose bits, read as `u32`, must be a
   * Unicode scalar value. Otherwise the outcome is a Failure whose input is
   * what follows the varint.
   */
  function ParseChar(s: seq<Byte>): (r: PResult<char>)
    ensures ReadI32(s).PErr? ==> r == PErr(ReadI32(s).err)
    ensures ReadI32(s).POk? && !Utf8.IsScalar(AsU32(ReadI32(s).value)) ==>
      r == PErr(Failure(NewStringResolve(ReadI32(s).rest, InvalidCharacterArray)))
    ensures r.POk? ==> r.value as int == AsU32(ReadI32(s).value) && r.rest == ReadI32(s).rest
  {
    match ReadI32(s)
    case PErr(e) => PErr(e)
    case POk(v, s1) =>
      var u := AsU32(v);
      if Utf8.IsScalar(u) then POk(u as char, s1)
      else PErr(Failure(NewStringResolve(s1, InvalidCharacterArray)))
  }

  /** The varint `parse_char` reads for a character. */
  function EncodeChar(c: char): seq<Byte>
  {
    Encode(AsUsize(c as int))
  }

  /** Every character reads back, whatever follows it. */
  lemma CharRoundTrip(c: char, rest: seq<Byte>)
    ensures ParseChar(EncodeChar(c) + rest) == POk(c, rest)
  {
    RoundTripI32(c as int, rest);
  }

  /** `parse_java_lang_string`: a string record, resolved; the rest is what follows the record. */
  function ParseJavaLangString(s: seq<Byte>): (r: PResult<StringTable.StringValue>)
    ensures StringTable.ParseRecord(s).PErr? ==> r == PErr(StringTable.ParseRecord(s).err)
    ensures r.POk? ==> StringTable.ParseRecord(s).POk? && r.rest == StringTable.ParseRecord(s).rest
    ensures r.POk? ==> StringTable.Resolve(StringTable.ParseRecord(s).value).POk?
    ensures r.POk? ==> r.value == StringTable.Resolve(StringTable.ParseRecord(s).value).value
  {
    match StringTable.ParseRecord(s)
    case PErr(e) => PErr(e)
    case POk(record, s1) =>
      match StringTable.Resolve(record)
      case PErr(e) => PErr(e)
      case POk(v, _) => POk(v, s1)
  }

  /** The primitive a resolved string value becomes. */
  function StringPrimitive(v: StringTable.StringValue): (p: Primitive)
    ensures p.NullString? || p.String? || p.StringConstantPool?
  {
    match v
    case NullValue => NullString
    case Text(t) => String(t)
    case ConstantPoolRef(i) => StringConstantPool(i)
  }

  /** The string value a string primitive came from. */
  function StringValueOf(p: Primitive): (v: StringTable.StringValue)
    requires p.NullString? || p.String? || p.StringConstantPool?
  {
    match p
    case NullString => StringTable.NullValue
    case String(t) => StringTable.Text(t)
    case StringConstantPool(i) => StringTable.ConstantPoolRef(i)
  }

  /** `Primitive::parse_string` keeps the variant, the text and the constant-pool index. */
  lemma StringPrimitiveInverse(v: StringTable.StringValue)
    ensures StringValueOf(StringPrimitive(v)) == v
    ensures StringTable.AsStr(v).Some? <==> StringPrimitive(v).String?
  {
  }

  /** The nine parsers `resolve_parser` can hand out, one per name. */
  datatype Kind = KBoolean | KChar | KFloat | KDouble | KByte | KShort | KInt | KLong | KString

  /** The class name each parser is registered under. */
  function KindName(k: Kind): string
  {
    match k
    case KBoolean => "boolean"
    case KChar => "char"
    case KFloat => "float"
    case KDouble => "double"
    case KByte => "byte"
    case KShort => "short"
    case KInt => "int"
    case KLong => "long"
    case KString => "java.lang.String"
  }

  /** The nine class names with a primitive parser. */
  const PrimitiveNames: set<string> :=
    {"boolean", "char", "float", "double", "byte", "short", "int", "long", "java.lang.String"}

  /** `Primitive::resolve_parser`: the parser registered under `name`, if any. */
  function ResolveParser(name: string): (r: Option<Kind>)
    ensures r.Some? <==> name in PrimitiveNames
    ensures r.Some? ==> KindName(r.value) == name
  {
    if name == "boolean" then Some(KBoolean)
    else if name == "char" then Some(KChar)
    else if name == "float" then Some(KFloat)
    else if name == "double" then Some(KDouble)
    else if name == "byte" then Some(KByte)
    else if name == "short" then Some(KShort)
    else if name == "int" then Some(KInt)
    else if name == "long" then Some(KLong)
    else if name == "java.lang.String" then Some(KString)
    else None
  }

  /** Every parser is found under its own name, and no two parsers share one. */
  lemma ResolveKindName(k: Kind)
    ensures ResolveParser(KindName(k)) == Some(k)
  {
  }

  /** The variant each parser produces. */
  predicate Produces(k: Kind, p: Primitive)
  {
    match k
    case KBoolean => p.Boolean?
    case KChar => p.Character?
    case KFloat => p.Float?
    case KDouble => p.Double?
    case KByte => p.SignedByte?
    case KShort => p.Short?
    case KInt => p.Integer?
    case KLong => p.Long?
    case KString => p.NullString? || p.String? || p.StringConstantPool?
  }

  /** `Primitive::parse_boolean`. */
  function BooleanPrimitive(s: seq<Byte>): (r: PResult<Primitive>)
    ensures r.POk? ==> r.value.Boolean?
  {
    match ParseBoolean(s) case PErr(e) => PErr(e) case POk(b, s1) => POk(Boolean(b), s1)
  }

  /** `Primitive::parse_char`. */
  function CharPrimitive(s: seq<Byte>): (r: PResult<Primitive>)
    ensures r.POk? ==> r.value.Character?
  {
    match ParseChar(s) case PErr(e) => PErr(e) case POk(c, s1) => POk(Character(c), s1)
  }

  /** `Primitive::parse_float`. */
  function FloatPrimitive(s: seq<Byte>): (r: PResult<Primitive>)
    ensures r.POk? ==> r.value.Float?
  {
    match ParseFloatBits(s) case PErr(e) => PErr(e) case POk(x, s1) => POk(Float(x), s1)
  }

  /** `Primitive::parse_double`. */
  function DoublePrimitive(s: seq<Byte>): (r: PResult<Primitive>)
    ensures r.POk? ==> r.value.Double?
  {
    match ParseDoubleBits(s) case PErr(e) => PErr(e) case POk(x, s1) => POk(Double(x), s1)
  }

  /** `Primitive::parse_byte`: `parse_byte` is nom's `be_i8`. */
  function BytePrimitive(s: seq<Byte>): (r: PResult<Primitive>)
    ensures r.POk? ==> r.value.SignedByte?
  {
    match BeI8(s) case PErr(e) => PErr(e) case POk(x, s1) => POk(SignedByte(x), s1)
  }

  /** `Primitive::parse_short`: `parse_short` is `leb128_i16`. */
  function ShortPrimitive(s: seq<Byte>): (r: PResult<Primitive>)
    ensures r.POk? ==> r.value.Short?
  {
    match ReadI16(s) case PErr(e) => PErr(e) case POk(x, s1) => POk(Short(x), s1)
  }

  /** `Primitive::parse_int`: `parse_int` is `leb128_i32`. */
  function IntPrimitive(s: seq<Byte>): (r: PResult<Primitive>)
    ensures r.POk? ==> r.value.Integer?
  {
    match ReadI32(s) case PErr(e) => PErr(e) case POk(x, s1) => POk(Integer(x), s1)
  }

  /** `Primitive::parse_long`: `parse_long` is `leb128_i64`. */
  function LongPrimitive(s: seq<Byte>): (r: PResult<Primitive>)
    ensures r.POk? ==> r.value.Long?
  {
    match ReadI64(s) case PErr(e) => PErr(e) case POk(x, s1) => POk(Long(x), s1)
  }

  /** `Primitive::parse_string`: a null, inline or pooled string keeps its form. */
  function StringPrimitiveParse(s: seq<Byte>): (r: PResult<Primitive>)
    ensures r.POk? ==> r.value.NullString? || r.value.String? || r.value.StringConstantPool?
  {
    match ParseJavaLangString(s) case PErr(e) => PErr(e) case POk(v, s1) => POk(StringPrimitive(v), s1)
  }

  /** The function pointer `resolve_parser` hands out for a kind. */
  function ParserOf(k: Kind): seq<Byte> -> PResult<Primitive>
  {
    match k
    case KBoolean => BooleanPrimitive
    case KChar => CharPrimitive
    case KFloat => FloatPrimitive
    case KDouble => DoublePrimitive
    case KByte => BytePrimitive
    case KShort => ShortPrimitive
    case KInt => IntPrimitive
    case KLong => LongPrimitive
    case KString => StringPrimitiveParse
  }

  /** Calling the parser of kind `k`: whatever it yields is of the variant that kind stands for. */
  function ParseAs(k: Kind, s: seq<Byte>): (r: PResult<Primitive>)
    ensures r.POk? ==> Produces(k, r.value)
  {
    ParserOf(k)(s)
  }

  /** The parser a value is read with. */
  function KindOf(p: Primitive): (k: Kind)
    ensures Produces(k, p)
  {
    match p
    case Boolean(_) => KBoolean
    case SignedByte(_) => KByte
    case Short(_) => KShort
    case Integer(_) => KInt
    case Long(_) => KLong
    case Float(_) => KFloat
    case Double(_) => KDouble
    case Character(_) => KChar
    case NullString => KString
    case String(_) => KString
    case StringConstantPool(_) => KString
  }

  /** A value whose encoding fits: string text must fit the record's `i32` length. */
  predicate Encodable(p: Primitive)
  {
    p.String? ==> |Utf8.Encode(p.text)| < TWO_31
  }

  /** The string record a string primitive is written as; text is written as UTF-8. */
  function StringRecordOf(p: Primitive): (r: StringTable.StringRecord)
    requires p.NullString? || p.String? || p.StringConstantPool?
    requires Encodable(p)
    ensures StringTable.Writable(r)
  {
    match p
    case NullString => StringTable.RecordNull
    case String(t) => StringTable.RecordUtf8(Utf8.Encode(t))
    case StringConstantPool(i) => StringTable.RecordConstantPool(i)
  }

  /** The bytes each parser reads for a value: booleans as 0 or 1, bytes as one octet, floats as their bits. */
  function EncodePrimitive(p: Primitive): seq<Byte>
    requires Encodable(p)
  {
    match p
    case Boolean(b) => [if b then 1 else 0]
    case SignedByte(x) => [AsUsize(x) % TWO_8]
    case Short(x) => Encode(AsUsize(x))
    case Integer(x) => Encode(AsUsize(x))
    case Long(x) => Encode(AsUsize(x))
    case Float(bits) => Pow2Widths(); ToBigEndian(bits, 4)
    case Double(bits) => Pow2Widths(); ToBigEndian(bits, 8)
    case Character(c) => EncodeChar(c)
    case _ => StringTable.EncodeRecord(StringRecordOf(p))
  }

  /** A string value reads back through its record. */
  lemma StringRoundTrip(p: Primitive, rest: seq<Byte>)
    requires p.NullString? || p.String? || p.StringConstantPool?
    requires Encodable(p)
    ensures ParseJavaLangString(StringTable.EncodeRecord(StringRecordOf(p)) + rest) == POk(StringValueOf(p), rest)
  {
    StringTable.RecordRoundTrip(StringRecordOf(p), rest);
    if p.String? {
      StringTable.ResolveUtf8(p.text);
    }
  }

  /** A one-byte primitive reads back. */
  lemma OctetRoundTrip(p: Primitive, rest: seq<Byte>)
    requires p.Boolean? || p.SignedByte?
    ensures ParseAs(KindOf(p), EncodePrimitive(p) + rest) == POk(p, rest)
  {
    assert (EncodePrimitive(p) + rest)[1..] == rest;
  }

  /** Which parser `ParseAs` calls for each kind. */
  lemma Dispatch(k: Kind, s: seq<Byte>)
    ensures k == KShort ==> ParseAs(k, s) == ShortPrimitive(s)
    ensures k == KInt ==> ParseAs(k, s) == IntPrimitive(s)
    ensures k == KLong ==> ParseAs(k, s) == LongPrimitive(s)
    ensures k == KFloat ==> ParseAs(k, s) == FloatPrimitive(s)
    ensures k == KDouble ==> ParseAs(k, s) == DoublePrimitive(s)
  {
  }

  /** A `short` reads back from its varint. */
  lemma ShortRoundTrip(x: I16, rest: seq<Byte>)
    ensures ParseAs(KShort, Encode(AsUsize(x)) + rest) == POk(Short(x), rest)
  {
    RoundTripI16(x, rest);
    assert ShortPrimitive(Encode(AsUsize(x)) + rest) == POk(Short(x), rest);
    Dispatch(KShort, Encode(AsUsize(x)) + rest);
  }

  /** An `int` reads back from its varint. */
  lemma IntRoundTrip(x: I32, rest: seq<Byte>)
    ensures ParseAs(KInt, Encode(AsUsize(x)) + rest) == POk(Integer(x), rest)
  {
    RoundTripI32(x, rest);
    assert IntPrimitive(Encode(AsUsize(x)) + rest) == POk(Integer(x), rest);
    Dispatch(KInt, Encode(AsUsize(x)) + rest);
  }

  /** A `long` reads back from its varint. */
  lemma LongRoundTrip(x: I64, rest: seq<Byte>)
    ensures ParseAs(KLong, Encode(AsUsize(x)) + rest) == POk(Long(x), rest)
  {
    RoundTripSigned(x, rest);
    assert LongPrimitive(Encode(AsUsize(x)) + rest) == POk(Long(x), rest);
    Dispatch(KLong, Encode(AsUsize(x)) + rest);
  }

  /** A floating-point bit pattern reads back. */
  lemma BitsRoundTrip(p: Primitive, rest: seq<Byte>)
    requires p.Float? || p.Double?
    ensures ParseAs(KindOf(p), EncodePrimitive(p) + rest) == POk(p, rest)
  {
    Pow2Widths();
    match p
    case Float(bits) =>
      BeUnsignedRoundTrip(bits, 4, rest);
      Dispatch(KFloat, EncodePrimitive(p) + rest);
    case Double(bits) =>
      BeUnsignedRoundTrip(bits, 8, rest);
      Dispatch(KDouble, EncodePrimitive(p) + rest);
  }

  /** Every encodable value reads back with the parser of its own kind, whatever follows it. */
  lemma PrimitiveRoundTrip(p: Primitive, rest: seq<Byte>)
    requires Encodable(p)
    ensures ParseAs(KindOf(p), EncodePrimitive(p) + rest) == POk(p, rest)
  {
    if p.Boolean? || p.SignedByte? {
      OctetRoundTrip(p, rest);
    } else if p.Short? {
      ShortRoundTrip(p.i16, rest);
    } else if p.Integer? {
      IntRoundTrip(p.i32, rest);
    } else if p.Long? {
      LongRoundTrip(p.i64, rest);
    } else if p.Float? || p.Double? {
      BitsRoundTrip(p, rest);
    } else if p.Character? {
      CharRoundTrip(p.c, rest);
    } else {
      StringRoundTrip(p, rest);
    }
  }

  /**
   * `Primitive::try_parse_from_name`: parse with the parser registered under
   * `name`; an unknown name reads nothing and yields `None`.
   */
  function TryParseFromName(name: string, s: seq<Byte>): (r: PResult<Option<Primitive>>)
    ensures name !in PrimitiveNames ==> r == POk(None, s)
    ensures name in PrimitiveNames ==> var k := ResolveParser(name).value;
      (r.PErr? <==> ParseAs(k, s).PErr?) &&
      (r.PErr? ==> r.err == ParseAs(k, s).err) &&
      (r.POk? ==> r.value == Some(ParseAs(k, s).value) && r.rest == ParseAs(k, s).rest)
  {
    match ResolveParser(name)
    case None => POk(None, s)
    case Some(k) =>
      match ParseAs(k, s)
      case PErr(e) => PErr(e)
      case POk(v, s1) => POk(Some(v), s1)
  }

  /** `as_boolean`. */
  function AsBoolean(p: Primitive): (r: Option<bool>)
    ensures r.Some? <==> p.Boolean?
  {
    if p.Boolean? then Some(p.b) else None
  }

  /** `as_byte`. */
  function AsByte(p: Primitive): (r: Option<I8>)
    ensures r.Some? <==> p.SignedByte?
  {
    if p.SignedByte? then Some(p.i8) else None
  }

  /** `as_short`. */
  function AsShort(p: Primitive): (r: Option<I16>)
    ensures r.Some? <==> p.Short?
  {
    if p.Short? then Some(p.i16) else None
  }

  /** `as_integer`. */
  function AsInteger(p: Primitive): (r: Option<I32>)
    ensures r.Some? <==> p.Integer?
  {
    if p.Integer? then Some(p.i32) else None
  }

  /** `as_long`. */
  function AsLong(p: Primitive): (r: Option<I64>)
    ensures r.Some? <==> p.Long?
  {
    if p.Long? then Some(p.i64) else None
  }

  /** `as_float`, as the bit pattern. */
  function AsFloat(p: Primitive): (r: Option<U32>)
    ensures r.Some? <==> p.Float?
  {
    if p.Float? then Some(p.f32Bits) else None
  }

  /** `as_double`, as the bit pattern. */
  function AsDouble(p: Primitive): (r: Option<U64>)
    ensures r.Some? <==> p.Double?
  {
    if p.Double? then Some(p.f64Bits) else None
  }

  /** `as_char`. */
  function AsChar(p: Primitive): (r: Option<char>)
    ensures r.Some? <==> p.Character?
  {
    if p.Character? then Some(p.c) else None
  }

  /** `as_str`: only a resolved string has text; null and pooled strings do not. */
  function AsStr(p: Primitive): (r: Option<string>)
    ensures r.Some? <==> p.String?
  {
    if p.String? then Some(p.text) else None
  }

  /** How many accessors answer for `p`. */
  function Answers(p: Primitive): nat
  {
    (if AsBoolean(p).Some? then 1 else 0) + (if AsByte(p).Some? then 1 else 0)
    + (if AsShort(p).Some? then 1 else 0) + (if AsInteger(p).Some? then 1 else 0)
    + (if AsLong(p).Some? then 1 else 0) + (if AsFloat(p).Some? then 1 else 0)
    + (if AsDouble(p).Some? then 1 else 0) + (if AsChar(p).Some? then 1 else 0)
    + (if AsStr(p).Some? then 1 else 0)
  }

  /**
   * Accessors partition the variants: exactly one answers for each value
   * except the null and pooled strings, for which none does; and what a
   * parser produces is read back by the accessor of its own kind.
   */
  lemma AccessorsExclusive(p: Primitive)
    ensures Answers(p) == (if p.NullString? || p.StringConstantPool? then 0 else 1)
    ensures p.Boolean? ==> AsBoolean(p) == Some(p.b)
    ensures p.Character? ==> AsChar(p) == Some(p.c)
    ensures p.String? ==> AsStr(p) == Some(p.text)
  {
  }
}
