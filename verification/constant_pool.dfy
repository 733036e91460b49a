/**
 * Checkpoint (constant pool) events (jfr-reader/src/constant_pool.rs): the
 * header with its mask flags, the framing of the event, and the layout of
 * its pools. Pool values are decoded by the resolver; here the value parser
 * is a parameter, which also breaks the cycle between the two source files.
 */
module ConstantPool {
  import opened Ints
  import opened Errors
  import opened Nom
  import opened Leb128

  datatype ConstantPoolHeader = ConstantPoolHeader(
    size: I32,
    typeId: I64,
    timestamp: I64,
    duration: I64,
    delta: I64,
    mask: I8,
    poolCount: I32)

  /**
   * `ConstantPoolHeader::parse`: an i32 varint size, four i64 varints (type
   * id, timestamp, duration, delta), a signed byte mask, an i32 varint count.
   * The four consecutive i64 reads are written as one `count`, which fails
   * and succeeds exactly as the four reads in a row do.
   */
  function ParseConstantPoolHeader(s: seq<Byte>): (r: PResult<ConstantPoolHeader>)
  {
    match ReadI32(s)
    case PErr(e) => PErr(e)
    case POk(size, s1) =>
      match Nom.Count(ReadI64, s1, 4)
      case PErr(e) => PErr(e)
      case POk(t, s2) =>
        match BeI8(s2)
        case PErr(e) => PErr(e)
        case POk(mask, s3) =>
          match ReadI32(s3)
          case PErr(e) => PErr(e)
          case POk(poolCount, s4) =>
            POk(ConstantPoolHeader(size, t[0], t[1], t[2], t[3], mask, poolCount), s4)
  }

  /** The bytes `ParseConstantPoolHeader` reads. */
  function EncodeConstantPoolHeader(h: ConstantPoolHeader): (b: seq<Byte>)
  {
    Encode(AsUsize(h.size))
    + (ConcatMap(EncodeI64, [h.typeId, h.timestamp, h.duration, h.delta])
       + ([MaskByte(h.mask)] + Encode(AsUsize(h.poolCount))))
  }

  /** The header parse, given the outcome of each of its reads. */
  lemma HeaderSteps(s: seq<Byte>, h: ConstantPoolHeader, s1: seq<Byte>, s2: seq<Byte>, s3: seq<Byte>, rest: seq<Byte>)
    requires ReadI32(s) == POk(h.size, s1)
    requires Nom.Count(ReadI64, s1, 4) == POk([h.typeId, h.timestamp, h.duration, h.delta], s2)
    requires BeI8(s2) == POk(h.mask, s3)
    requires ReadI32(s3) == POk(h.poolCount, rest)
    ensures ParseConstantPoolHeader(s) == POk(h, rest)
  {
  }

  /** A checkpoint header reads back, whatever follows it. */
  lemma ConstantPoolHeaderRoundTrip(h: ConstantPoolHeader, rest: seq<Byte>)
    ensures ParseConstantPoolHeader(EncodeConstantPoolHeader(h) + rest) == POk(h, rest)
  {
    var t := [h.typeId, h.timestamp, h.duration, h.delta];
    var a, b, m, p := Encode(AsUsize(h.size)), ConcatMap(EncodeI64, t), [MaskByte(h.mask)], Encode(AsUsize(h.poolCount));
    ConcatAssoc(a, b + (m + p), rest);
    ConcatAssoc(b, m + p, rest);
    ConcatAssoc(m, p, rest);
    RoundTripI32(h.size, b + (m + (p + rest)));
    CountI64s(t, m + (p + rest));
    ConsSplit(MaskByte(h.mask), p, rest);
    RoundTripI32(h.poolCount, rest);
    HeaderSteps(EncodeConstantPoolHeader(h) + rest, h, b + (m + (p + rest)), m + (p + rest), p + rest, rest);
  }

  /** The mask as the byte it was read from. */
  function MaskByte(m: I8): (b: Byte)
    ensures ToI8(b) == m
  {
    if m < 0 then m + TWO_8 else m
  }

  /** The eight bits of a mask. */
  function MaskBits(m: I8): bv8
  {
    MaskByte(m) as bv8
  }

  /** The mask whose bits are `b`. */
  function MaskOf(b: bv8): (m: I8)
    ensures MaskBits(m) == b
  {
    ToI8(b as int)
  }

  /** `CheckpointType` flag values. */
  const GENERIC: I8 := 0
  const FLUSH: I8 := 1
  const CHUNK_HEADER: I8 := 2
  const STATICS: I8 := 4
  const THREAD: I8 := 8

  /** bitflags' `contains`: every bit of `flag` is set in `m`. */
  predicate Contains(m: I8, flag: I8)
  {
    MaskBits(m) & MaskBits(flag) == MaskBits(flag)
  }

  /** `mask_flags`: `from_bits_retain` keeps the byte as it is, undefined bits included. */
  function MaskFlags(h: ConstantPoolHeader): (f: I8)
    ensures MaskBits(f) == MaskBits(h.mask)
  {
    h.mask
  }

  predicate IsFlush(h: ConstantPoolHeader) { Contains(MaskFlags(h), FLUSH) }
  predicate IsChunkHeader(h: ConstantPoolHeader) { Contains(MaskFlags(h), CHUNK_HEADER) }
  predicate IsStatics(h: ConstantPoolHeader) { Contains(MaskFlags(h), STATICS) }
  predicate IsThread(h: ConstantPoolHeader) { Contains(MaskFlags(h), THREAD) }

  /** Bit `k` of a mask. */
  predicate Bit(m: I8, k: bv8)
    requires k < 8
  {
    (MaskBits(m) >> k) & 1 == 1
  }

  /** Each flag test reads exactly one bit of the mask: bit 0, 1, 2 and 3 respectively. */
  lemma FlagsAreBits(h: ConstantPoolHeader)
    ensures IsFlush(h) <==> Bit(h.mask, 0)
    ensures IsChunkHeader(h) <==> Bit(h.mask, 1)
    ensures IsStatics(h) <==> Bit(h.mask, 2)
    ensures IsThread(h) <==> Bit(h.mask, 3)
  {
    assert MaskBits(FLUSH) == 1 && MaskBits(CHUNK_HEADER) == 2;
    assert MaskBits(STATICS) == 4 && MaskBits(THREAD) == 8;
  }

  /**
   * The four flags are independent of each other and of the other bits:
   * any eight bits are some mask, which keeps all of them.
   */
  lemma FlagsIndependent(b: bv8)
    ensures var h := ConstantPoolHeader(0, 0, 0, 0, 0, MaskOf(b), 0);
      MaskBits(MaskFlags(h)) == b
      && (IsFlush(h) <==> b & 1 != 0) && (IsChunkHeader(h) <==> b & 2 != 0)
      && (IsStatics(h) <==> b & 4 != 0) && (IsThread(h) <==> b & 8 != 0)
  {
    assert MaskBits(FLUSH) == 1 && MaskBits(CHUNK_HEADER) == 2;
    assert MaskBits(STATICS) == 4 && MaskBits(THREAD) == 8;
  }

  /** A checkpoint event: its header and everything after the header. */
  datatype ConstantPoolEvent = ConstantPoolEvent(header: ConstantPoolHeader, poolData: seq<Byte>)

  /**
   * `ConstantPoolEvent::parse`: `pool_data` is the whole input after the
   * header, not only up to `size`; the returned rest starts `size` bytes after
   * the event start.
   */
  function ParseConstantPoolEvent(s: seq<Byte>): (r: PResult<ConstantPoolEvent>)
    ensures ParseConstantPoolHeader(s).PErr? ==> r.PErr?
    ensures ParseConstantPoolHeader(s).POk? ==>
      (r.POk? <==> AsUsize(ParseConstantPoolHeader(s).value.size) <= |s|)
    ensures r.POk? ==> r.value.header == ParseConstantPoolHeader(s).value
    ensures r.POk? ==> r.value.poolData == ParseConstantPoolHeader(s).rest
    ensures r.POk? ==> r.rest == s[AsUsize(r.value.header.size)..]
  {
    match Context("parsing constant pool header", ParseConstantPoolHeader(s))
    case PErr(e) => PErr(e)
    case POk(header, poolData) =>
      match Context("reading constant pool event data", Take(s, AsUsize(header.size)))
      case PErr(e) => PErr(e)
      case POk(_, rest) => POk(ConstantPoolEvent(header, poolData), rest)
  }

  /** A checkpoint whose size covers its header and pools frames back; the pools run to the end of the input. */
  lemma ConstantPoolEventRoundTrip(h: ConstantPoolHeader, pools: seq<Byte>, rest: seq<Byte>)
    requires h.size == |EncodeConstantPoolHeader(h)| + |pools|
    ensures ParseConstantPoolEvent(EncodeConstantPoolHeader(h) + pools + rest)
      == POk(ConstantPoolEvent(h, pools + rest), rest)
  {
    var e := EncodeConstantPoolHeader(h);
    ConcatAssoc(e, pools, rest);
    ConstantPoolHeaderRoundTrip(h, pools + rest);
    assert (e + pools + rest)[h.size..] == rest;
  }

  /**
   * A value decoder: the bytes, the class id the value belongs to, and the
   * decoded value with the unconsumed rest, or an error.
   */
  type ValueParser<V> = (seq<Byte>, I64) -> Result<(V, seq<Byte>)>

  /** `parse_constant_pool_value`: an i64 pool index, then a value of class `classId`. */
  function ParseValue<V(!new)>(parse: ValueParser<V>, classId: I64, s: seq<Byte>): (r: Result<((I64, V), seq<Byte>)>)
  {
    match ReadI64(s)
    case PErr(e) => Err(FromNom(e))
    case POk(index, s1) =>
      match parse(s1, classId)
      case Err(e) => Err(e)
      case Ok((v, s2)) => Ok(((index, v), s2))
  }

  /** One step of the loop over a class's constants. */
  function ValueReader<V(!new)>(parse: ValueParser<V>, classId: I64): seq<Byte> -> Result<((I64, V), seq<Byte>)>
  {
    s => ParseValue(parse, classId, s)
  }

  /**
   * `parse_constant_pool_class`: a class id and an i32 count, then that many
   * index/value pairs, all of that class. A negative count is sign-extended
   * into `Vec::with_capacity`, which panics.
   */
  function ParseClass<V(!new)>(parse: ValueParser<V>, s: seq<Byte>): (r: Result<((I64, seq<(I64, V)>), seq<Byte>)>)
    ensures r.Ok? ==> ReadI64(s).POk? && r.value.0.0 == ReadI64(s).value
  {
    match Context("parsing constant pool class entry", ReadI64(s))
    case PErr(e) => Err(FromNom(e))
    case POk(classId, s1) =>
      match Context("parsing constant pool class entry", ReadI32(s1))
      case PErr(e) => Err(FromNom(e))
      case POk(count, s2) =>
        if count < 0 then Err(Panic("capacity overflow"))
        else Grouped(classId, Repeat(ValueReader(parse, classId), s2, count))
  }

  /** The loop's outcome tagged with its class id. */
  function Grouped<V(!new)>(classId: I64, r: Result<(seq<(I64, V)>, seq<Byte>)>): Result<((I64, seq<(I64, V)>), seq<Byte>)>
  {
    match r
    case Err(e) => Err(e)
    case Ok((values, s)) => Ok(((classId, values), s))
  }

  /** One step of the loop over a checkpoint's pools. */
  function ClassReader<V(!new)>(parse: ValueParser<V>): seq<Byte> -> Result<((I64, seq<(I64, V)>), seq<Byte>)>
  {
    s => ParseClass(parse, s)
  }

  /** `resolve_constants`: `pool_count` classes read from `pool_data`; a non-positive count reads none. */
  function ResolveConstants<V(!new)>(parse: ValueParser<V>, ev: ConstantPoolEvent): (r: Result<seq<(I64, seq<(I64, V)>)>>)
    ensures ev.header.poolCount <= 0 ==> r == Ok([])
    ensures r.Ok? ==> |r.value| == if ev.header.poolCount <= 0 then 0 else ev.header.poolCount
  {
    var n := if ev.header.poolCount <= 0 then 0 else ev.header.poolCount;
    match Repeat(ClassReader(parse), ev.poolData, n)
    case Err(e) => Err(e)
    case Ok((groups, _)) => Ok(groups)
  }

  /** The writer a value parser inverts: `enc(v, c)` is value `v` of class `c`. */
  ghost predicate Inverts<V(!new)>(parse: ValueParser<V>, enc: (V, I64) -> seq<Byte>)
  {
    forall v, c, rest :: parse(enc(v, c) + rest, c) == Ok((v, rest))
  }

  /** An index/value pair of class `classId`. */
  function PairWriter<V(!new)>(enc: (V, I64) -> seq<Byte>, classId: I64): ((I64, V)) -> seq<Byte>
  {
    (p: (I64, V)) => Encode(AsUsize(p.0)) + enc(p.1, classId)
  }

  /** A class group: id, count, then its pairs. Counts are `i32`s, so only groups below 2^31 pairs can be written. */
  function ClassWriter<V(!new)>(enc: (V, I64) -> seq<Byte>): ((I64, seq<(I64, V)>)) -> seq<Byte>
  {
    (g: (I64, seq<(I64, V)>)) => Encode(AsUsize(g.0)) + (Encode(|g.1| % TWO_31) + ConcatMap(PairWriter(enc, g.0), g.1))
  }

  predicate Countable<V(!new)>(groups: seq<(I64, seq<(I64, V)>)>)
  {
    forall i :: 0 <= i < |groups| ==> |groups[i].1| < TWO_31
  }

  lemma PairRoundTrip<V(!new)>(parse: ValueParser<V>, enc: (V, I64) -> seq<Byte>, classId: I64, p: (I64, V), rest: seq<Byte>)
    requires Inverts(parse, enc)
    ensures ValueReader(parse, classId)(PairWriter(enc, classId)(p) + rest) == Ok((p, rest))
  {
    var a, b := Encode(AsUsize(p.0)), enc(p.1, classId);
    ConcatAssoc(a, b, rest);
    RoundTripSigned(p.0, b + rest);
    assert parse(b + rest, classId) == Ok((p.1, rest));
  }

  /** The class id and count of a group read back, and the loop starts right after them. */
  lemma ClassHead<V(!new)>(parse: ValueParser<V>, classId: I64, n: nat, tail: seq<Byte>)
    requires n < TWO_31
    ensures ParseClass(parse, Encode(AsUsize(classId)) + (Encode(n) + tail))
      == Grouped(classId, Repeat(ValueReader(parse, classId), tail, n))
  {
    RoundTripSigned(classId, Encode(n) + tail);
    RoundTripI32(n, tail);
  }

  /** A class group reads back: its id, and each value read with that id. */
  lemma ClassRoundTrip<V(!new)>(parse: ValueParser<V>, enc: (V, I64) -> seq<Byte>, g: (I64, seq<(I64, V)>), rest: seq<Byte>)
    requires Inverts(parse, enc) && |g.1| < TWO_31
    ensures ClassReader(parse)(ClassWriter(enc)(g) + rest) == Ok((g, rest))
  {
    var t := ConcatMap(PairWriter(enc, g.0), g.1);
    var a, b := Encode(AsUsize(g.0)), Encode(|g.1|);
    assert ClassWriter(enc)(g) == a + (b + t);
    ConcatAssoc(a, b + t, rest);
    ConcatAssoc(b, t, rest);
    ClassHead(parse, g.0, |g.1|, t + rest);
    forall p, r | p in g.1
      ensures ValueReader(parse, g.0)(PairWriter(enc, g.0)(p) + r) == Ok((p, r))
    {
      PairRoundTrip(parse, enc, g.0, p, r);
    }
    RepeatConcat(ValueReader(parse, g.0), PairWriter(enc, g.0), g.1, rest);
  }

  /** The pools of a checkpoint written from `groups` resolve to exactly those groups, in order. */
  lemma ResolveRoundTrip<V(!new)>(parse: ValueParser<V>, enc: (V, I64) -> seq<Byte>, h: ConstantPoolHeader, groups: seq<(I64, seq<(I64, V)>)>, rest: seq<Byte>)
    requires Inverts(parse, enc) && Countable(groups) && h.poolCount == |groups|
    ensures ResolveConstants(parse, ConstantPoolEvent(h, ConcatMap(ClassWriter(enc), groups) + rest)) == Ok(groups)
  {
    forall g, r | g in groups
      ensures ClassReader(parse)(ClassWriter(enc)(g) + r) == Ok((g, r))
    {
      ClassRoundTrip(parse, enc, g, r);
    }
    RepeatConcat(ClassReader(parse), ClassWriter(enc), groups, rest);
  }
}
