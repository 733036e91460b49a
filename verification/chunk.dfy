/**
 * Chunk framing (jfr-reader/src/chunk.rs): the fixed big-endian chunk
 * header, the in-memory `SliceReader` that cuts a chunk and its metadata
 * event out of a byte buffer, the sequential scan over event records and
 * the backward-linked chain of checkpoint (constant pool) events.
 *
 * The two iterators of the source never end on an error, and the checkpoint
 * chain need not end at all, so both are modelled by their first `fuel`
 * items.
 */
module Chunk {
  import opened Ints
  import opened Errors
  import opened Nom
  import Events
  import ConstantPool
  import MetadataRecords
  import MetadataElements

  /** `MAGIC`: the bytes `FLR\0`. */
  const MAGIC: seq<Byte> := [0x46, 0x4c, 0x52, 0x00]

  /** `ChunkHeader::HEADER_SIZE`. */
  const HEADER_SIZE: nat := 68

  /** The widths of the ten big-endian fields after the magic: two u16, seven u64, one u32. */
  const FIELD_WIDTHS: seq<nat> := [2, 2, 8, 8, 8, 8, 8, 8, 8, 4]

  /** Where field `i` starts, counted from the first field. */
  function Offset(ws: seq<nat>, i: nat): nat
    requires i <= |ws|
  {
    if i == 0 then 0 else Offset(ws, i - 1) + ws[i - 1]
  }

  /** The bytes all the fields take. */
  function Total(ws: seq<nat>): nat
  {
    Offset(ws, |ws|)
  }

  /** Dropping the first field moves every later offset back by its width. */
  lemma {:induction false} OffsetShift(ws: seq<nat>, i: nat)
    requires 1 <= i <= |ws|
    ensures Offset(ws, i) == ws[0] + Offset(ws[1..], i - 1)
    decreases i
  {
    if i > 1 {
      OffsetShift(ws, i - 1);
      assert ws[1..][i - 2] == ws[i - 1];
    }
  }

  /** Field `i` ends no later than the last field. */
  lemma {:induction false} OffsetBound(ws: seq<nat>, i: nat, j: nat)
    requires i <= j <= |ws|
    ensures Offset(ws, i) <= Offset(ws, j)
    decreases j - i
  {
    if i < j {
      OffsetBound(ws, i, j - 1);
    }
  }

  /** Each value fits its width. */
  predicate Fits(vs: seq<nat>, ws: seq<nat>)
  {
    |vs| == |ws| && forall i :: 0 <= i < |ws| ==> vs[i] < Pow2(8 * ws[i])
  }

  /** Consecutive `be_u16`/`be_u32`/`be_u64` reads of the given widths; the first short read is Incomplete. */
  function ReadFields(s: seq<Byte>, ws: seq<nat>): (r: PResult<seq<nat>>)
    ensures r.POk? ==> Fits(r.value, ws)
    ensures r.PErr? ==> r.err.Incomplete?
    decreases |ws|
  {
    if |ws| == 0 then POk([], s)
    else
      match BeUnsigned(s, ws[0])
      case PErr(e) => PErr(e)
      case POk(v, s1) =>
        match ReadFields(s1, ws[1..])
        case PErr(e) => PErr(e)
        case POk(vs, s2) =>
          assert forall i :: 1 <= i < |ws| ==> ws[1..][i - 1] == ws[i] && ([v] + vs)[i] == vs[i - 1];
          POk([v] + vs, s2)
  }

  /** The reads succeed exactly when the input holds all the fields, and the rest starts right after the last one. */
  lemma {:induction false} ReadFieldsLength(s: seq<Byte>, ws: seq<nat>)
    ensures ReadFields(s, ws).POk? <==> Total(ws) <= |s|
    ensures ReadFields(s, ws).POk? ==> ReadFields(s, ws).rest == s[Total(ws)..]
    decreases |ws|
  {
    if |ws| > 0 {
      OffsetShift(ws, |ws|);
      if ws[0] <= |s| {
        ReadFieldsLength(s[ws[0]..], ws[1..]);
      }
    }
  }

  /** One field read: the first value is the first field's bytes, the rest are read from what follows. */
  lemma ReadFieldsStep(s: seq<Byte>, ws: seq<nat>)
    requires |ws| > 0 && ReadFields(s, ws).POk?
    ensures ws[0] <= |s| && ReadFields(s[ws[0]..], ws[1..]).POk?
    ensures ReadFields(s, ws).value == [BigEndian(s[..ws[0]])] + ReadFields(s[ws[0]..], ws[1..]).value
  {
  }

  /** The bytes of field `i`. */
  function FieldBytes(s: seq<Byte>, ws: seq<nat>, i: nat): seq<Byte>
    requires i < |ws| && Offset(ws, i) + ws[i] <= |s|
  {
    s[Offset(ws, i)..Offset(ws, i) + ws[i]]
  }

  /** Value `i` is the big-endian number in field `i`'s own byte range of `s`. */
  predicate FieldValues(s: seq<Byte>, ws: seq<nat>, vs: seq<nat>)
  {
    |vs| == |ws| &&
    forall i {:trigger vs[i]} :: 0 <= i < |ws| ==>
      Offset(ws, i) + ws[i] <= |s| && vs[i] == BigEndian(FieldBytes(s, ws, i))
  }

  /** Reading a slice of the input after its first `a` bytes reads the input further on. */
  lemma SliceShift(s: seq<Byte>, a: nat, o: nat, w: nat)
    requires a <= |s| && o + w <= |s| - a
    ensures s[a..][o..o + w] == s[a + o..a + o + w]
  {
  }

  /** Putting the first field's value in front of the values of the later fields. */
  lemma FieldValuesCons(s: seq<Byte>, ws: seq<nat>, b: nat, tail: seq<nat>)
    requires |ws| > 0 && ws[0] <= |s| && b == BigEndian(s[..ws[0]])
    requires FieldValues(s[ws[0]..], ws[1..], tail)
    ensures FieldValues(s, ws, [b] + tail)
  {
    var vs := [b] + tail;
    forall i | 0 <= i < |ws|
      ensures Offset(ws, i) + ws[i] <= |s| && vs[i] == BigEndian(FieldBytes(s, ws, i))
    {
      if i > 0 {
        FieldValueLater(s, ws, tail, i);
        assert vs[i] == tail[i - 1];
      } else {
        assert FieldBytes(s, ws, 0) == s[..ws[0]];
      }
    }
  }

  /** A later field's value, read from the input after the first field, is read from its own range of the whole input. */
  lemma FieldValueLater(s: seq<Byte>, ws: seq<nat>, tail: seq<nat>, i: nat)
    requires 1 <= i < |ws| && ws[0] <= |s|
    requires FieldValues(s[ws[0]..], ws[1..], tail)
    ensures Offset(ws, i) + ws[i] <= |s| && tail[i - 1] == BigEndian(FieldBytes(s, ws, i))
  {
    OffsetShift(ws, i);
    assert ws[1..][i - 1] == ws[i];
    var o := Offset(ws[1..], i - 1);
    var v := tail[i - 1];
    assert o + ws[i] <= |s| - ws[0];
    assert v == BigEndian(FieldBytes(s[ws[0]..], ws[1..], i - 1));
    SliceShift(s, ws[0], o, ws[i]);
    assert FieldBytes(s[ws[0]..], ws[1..], i - 1) == FieldBytes(s, ws, i);
  }

  /** Each field read is the big-endian number in that field's own byte range. */
  lemma {:induction false} ReadFieldsValues(s: seq<Byte>, ws: seq<nat>)
    requires ReadFields(s, ws).POk?
    ensures FieldValues(s, ws, ReadFields(s, ws).value)
    decreases |ws|
  {
    if |ws| > 0 {
      ReadFieldsStep(s, ws);
      ReadFieldsValues(s[ws[0]..], ws[1..]);
      FieldValuesCons(s, ws, BigEndian(s[..ws[0]]), ReadFields(s[ws[0]..], ws[1..]).value);
    }
  }

  /** The bytes `ReadFields` reads. */
  function WriteFields(vs: seq<nat>, ws: seq<nat>): (b: seq<Byte>)
    requires Fits(vs, ws)
    ensures |b| == Total(ws)
    decreases |ws|
  {
    if |ws| == 0 then []
    else
      OffsetShift(ws, |ws|);
      assert Fits(vs[1..], ws[1..]) by {
        assert forall i :: 1 <= i < |ws| ==> ws[1..][i - 1] == ws[i] && vs[1..][i - 1] == vs[i];
      }
      ToBigEndian(vs[0], ws[0]) + WriteFields(vs[1..], ws[1..])
  }

  /** Fields that fit their widths read back, whatever follows them. */
  lemma {:induction false} FieldsRoundTrip(vs: seq<nat>, ws: seq<nat>, rest: seq<Byte>)
    requires Fits(vs, ws)
    ensures ReadFields(WriteFields(vs, ws) + rest, ws) == POk(vs, rest)
    decreases |ws|
  {
    if |ws| > 0 {
      var head := ToBigEndian(vs[0], ws[0]);
      var tail := WriteFields(vs[1..], ws[1..]);
      ConcatAssoc(head, tail, rest);
      BeUnsignedRoundTrip(vs[0], ws[0], tail + rest);
      FieldsRoundTrip(vs[1..], ws[1..], rest);
      assert [vs[0]] + vs[1..] == vs;
    }
  }

  datatype ChunkHeader = ChunkHeader(
    major: U16,
    minor: U16,
    chunkSize: U64,
    constantPoolPosition: U64,
    metadataPosition: U64,
    nanosecondsSinceEpoch: U64,
    durationNanoseconds: U64,
    startTicks: U64,
    ticksPerSecond: U64,
    stateAndFlags: U32)

  /** The header's fields in declared order. */
  function HeaderFields(h: ChunkHeader): (vs: seq<nat>)
    ensures Fits(vs, FIELD_WIDTHS)
  {
    Pow2Widths();
    [h.major, h.minor, h.chunkSize, h.constantPoolPosition, h.metadataPosition,
     h.nanosecondsSinceEpoch, h.durationNanoseconds, h.startTicks, h.ticksPerSecond, h.stateAndFlags]
  }

  function HeaderOf(vs: seq<nat>): (h: ChunkHeader)
    requires Fits(vs, FIELD_WIDTHS)
    ensures HeaderFields(h) == vs
  {
    HeaderBounds(vs);
    ChunkHeader(vs[0], vs[1], vs[2], vs[3], vs[4], vs[5], vs[6], vs[7], vs[8], vs[9])
  }

  /** The field values that fit the header's widths fit its field types. */
  lemma HeaderBounds(vs: seq<nat>)
    requires Fits(vs, FIELD_WIDTHS)
    ensures |vs| == 10 && vs[0] < TWO_16 && vs[1] < TWO_16 && vs[9] < TWO_32
    ensures forall i :: 2 <= i < 9 ==> vs[i] < TWO_64
  {
    Pow2Widths();
    var ws := FIELD_WIDTHS;
    assert vs[0] < Pow2(8 * ws[0]) && vs[1] < Pow2(8 * ws[1]) && vs[9] < Pow2(8 * ws[9]);
    assert forall i :: 2 <= i < 9 ==> ws[i] == 8;
  }

  /** `ChunkHeader::parse`: the magic, then the ten fields; nothing else is checked. */
  function ParseChunkHeader(s: seq<Byte>): (r: PResult<ChunkHeader>)
    ensures |s| >= 4 && s[..4] != MAGIC ==> r == PErr(Error(FromErrorKind(s, ErrorKind.Tag)))
    ensures r.POk? ==> |s| >= 4 && s[..4] == MAGIC
  {
    match Nom.Tag(s, MAGIC)
    case PErr(e) => PErr(e)
    case POk(_, s1) =>
      match ReadFields(s1, FIELD_WIDTHS)
      case PErr(e) => PErr(e)
      case POk(vs, s2) => POk(HeaderOf(vs), s2)
  }

  lemma FieldOffsets()
    ensures Total(FIELD_WIDTHS) == HEADER_SIZE - 4
    ensures Offset(FIELD_WIDTHS, 1) == 2 && Offset(FIELD_WIDTHS, 2) == 4 && Offset(FIELD_WIDTHS, 3) == 12
    ensures Offset(FIELD_WIDTHS, 4) == 20 && Offset(FIELD_WIDTHS, 9) == 60
  {
    var ws := FIELD_WIDTHS;
    assert Offset(ws, 1) == 2;
    assert Offset(ws, 2) == 4;
    assert Offset(ws, 3) == 12;
    assert Offset(ws, 4) == 20;
    assert Offset(ws, 5) == 28;
    assert Offset(ws, 6) == 36;
    assert Offset(ws, 7) == 44;
    assert Offset(ws, 8) == 52;
    assert Offset(ws, 9) == 60;
  }

  /**
   * A header parses exactly when the input starts with the magic and holds
   * 68 bytes; it consumes exactly those 68 bytes. The sizes, offsets and
   * version are read from their fixed byte ranges and accepted as they are.
   */
  lemma ChunkHeaderLayout(s: seq<Byte>)
    ensures ParseChunkHeader(s).POk? <==> |s| >= HEADER_SIZE && s[..4] == MAGIC
    ensures ParseChunkHeader(s).POk? ==>
      var h := ParseChunkHeader(s).value;
      ParseChunkHeader(s).rest == s[HEADER_SIZE..] &&
      h.major == BigEndian(s[4..6]) && h.minor == BigEndian(s[6..8]) &&
      h.chunkSize == BigEndian(s[8..16]) && h.constantPoolPosition == BigEndian(s[16..24]) &&
      h.metadataPosition == BigEndian(s[24..32]) && h.stateAndFlags == BigEndian(s[64..68])
  {
    FieldOffsets();
    if |s| >= 4 && s[..4] == MAGIC {
      var s1 := s[4..];
      ReadFieldsLength(s1, FIELD_WIDTHS);
      if ReadFields(s1, FIELD_WIDTHS).POk? {
        ReadFieldsValues(s1, FIELD_WIDTHS);
        HeaderFieldsAt(s, s1, ReadFields(s1, FIELD_WIDTHS).value);
      }
    } else if |s| >= 4 {
      assert Nom.Tag(s, MAGIC).PErr?;
    }
  }

  lemma HeaderFieldsAt(s: seq<Byte>, s1: seq<Byte>, vs: seq<nat>)
    requires |s| >= HEADER_SIZE && s1 == s[4..]
    requires FieldValues(s1, FIELD_WIDTHS, vs)
    ensures vs[0] == BigEndian(s[4..6]) && vs[1] == BigEndian(s[6..8]) && vs[2] == BigEndian(s[8..16])
    ensures vs[3] == BigEndian(s[16..24]) && vs[4] == BigEndian(s[24..32]) && vs[9] == BigEndian(s[64..68])
  {
    var ws := FIELD_WIDTHS;
    FieldOffsets();
    assert ws[0] == 2 && ws[1] == 2 && ws[2] == 8 && ws[3] == 8 && ws[4] == 8 && ws[9] == 4;
    FieldAfter(s, 4, ws, vs, 0, 4, 6);
    FieldAfter(s, 4, ws, vs, 1, 6, 8);
    FieldAfter(s, 4, ws, vs, 2, 8, 16);
    FieldAfter(s, 4, ws, vs, 3, 16, 24);
    FieldAfter(s, 4, ws, vs, 4, 24, 32);
    FieldAfter(s, 4, ws, vs, 9, 64, 68);
  }

  /** Field `i` of the fields read after the first `d` bytes is bytes `a..b` of the whole input. */
  lemma FieldAfter(s: seq<Byte>, d: nat, ws: seq<nat>, vs: seq<nat>, i: nat, a: nat, b: nat)
    requires d <= |s| && i < |ws| && FieldValues(s[d..], ws, vs)
    requires a == d + Offset(ws, i) && b == a + ws[i]
    ensures b <= |s| && vs[i] == BigEndian(s[a..b])
  {
    FieldValueAt(s[d..], ws, vs, i);
    FieldBytesAfter(s, d, ws, i, a, b);
  }

  /** Value `i` read from `s` is the number in field `i`'s bytes. */
  lemma FieldValueAt(s: seq<Byte>, ws: seq<nat>, vs: seq<nat>, i: nat)
    requires i < |ws| && FieldValues(s, ws, vs)
    ensures Offset(ws, i) + ws[i] <= |s| && vs[i] == BigEndian(FieldBytes(s, ws, i))
  {
  }

  /** The bytes of field `i` after the first `d` bytes are bytes `a..b` of the whole input. */
  lemma FieldBytesAfter(s: seq<Byte>, d: nat, ws: seq<nat>, i: nat, a: nat, b: nat)
    requires d <= |s| && i < |ws| && Offset(ws, i) + ws[i] <= |s| - d
    requires a == d + Offset(ws, i) && b == a + ws[i]
    ensures b <= |s| && FieldBytes(s[d..], ws, i) == s[a..b]
  {
    var o, w := Offset(ws, i), ws[i];
    SliceShift(s, d, o, w);
    assert FieldBytes(s[d..], ws, i) == s[d..][o..o + w];
  }

  /** The bytes of a chunk header. */
  function EncodeChunkHeader(h: ChunkHeader): (b: seq<Byte>)
    ensures |b| == HEADER_SIZE
  {
    FieldOffsets();
    MAGIC + WriteFields(HeaderFields(h), FIELD_WIDTHS)
  }

  /** Every header, whatever its version, sizes and offsets, reads back; nothing is rejected but a wrong magic. */
  lemma ChunkHeaderRoundTrip(h: ChunkHeader, rest: seq<Byte>)
    ensures ParseChunkHeader(EncodeChunkHeader(h) + rest) == POk(h, rest)
  {
    var fields := WriteFields(HeaderFields(h), FIELD_WIDTHS);
    var s := EncodeChunkHeader(h) + rest;
    ConcatAssoc(MAGIC, fields, rest);
    assert s[..4] == MAGIC && s[4..] == fields + rest;
    FieldsRoundTrip(HeaderFields(h), FIELD_WIDTHS, rest);
  }

  /**
   * An in-memory chunk: its bytes (header included, exactly `chunk_size`
   * of them), the parsed header, the parsed metadata header and the bytes of
   * the metadata event.
   */
  datatype SliceReader = SliceReader(
    data: seq<Byte>,
    header: ChunkHeader,
    metadataHeader: MetadataRecords.MetadataHeader,
    metadataEventData: seq<Byte>)

  /** The metadata header at the front of `raw`, and the metadata event cut at its declared size (`i32 as usize`). */
  function MetadataEvent(raw: seq<Byte>): (r: Result<(MetadataRecords.MetadataHeader, seq<Byte>)>)
    ensures MetadataRecords.ParseMetadataHeader(raw).PErr? ==>
      r == Err(FromNom(Context("parsing metadata header", MetadataRecords.ParseMetadataHeader(raw)).err))
    ensures r.Ok? ==> (MetadataRecords.ParseMetadataHeader(raw).POk? &&
      r.value.0 == MetadataRecords.ParseMetadataHeader(raw).value &&
      AsUsize(r.value.0.size) <= |raw| && r.value.1 == raw[..AsUsize(r.value.0.size)])
  {
    var (metadataHeader, _) :- Lift(Context("parsing metadata header", MetadataRecords.ParseMetadataHeader(raw)));
    var (metadataEventData, _) :- Lift(Context("resolving full metadata event data",
      Take(raw, AsUsize(metadataHeader.size))));
    Ok((metadataHeader, metadataEventData))
  }

  /**
   * How a reader and the bytes after it are cut from `data`: the chunk is the
   * first `chunk_size` bytes, and the metadata event, `size` bytes long, is
   * read from `metadata_position` on, inside the chunk.
   */
  predicate ReaderCut(data: seq<Byte>, remaining: seq<Byte>, reader: SliceReader)
  {
    var h := reader.header;
    h.metadataPosition <= h.chunkSize <= |data| &&
    reader.data == data[..h.chunkSize] && remaining == data[h.chunkSize..] &&
    MetadataEvent(data[h.metadataPosition..h.chunkSize]) == Ok((reader.metadataHeader, reader.metadataEventData))
  }

  /**
   * `SliceReader::new`: parse the header, cut the chunk at `chunk_size`,
   * read the metadata header at `metadata_position` inside the chunk and cut
   * the metadata event at its declared size. The input is split into exactly
   * `chunk_size` bytes and the rest, and the metadata event lies inside the
   * chunk.
   */
  function NewSliceReader(data: seq<Byte>): (r: Result<(seq<Byte>, SliceReader)>)
    ensures ParseChunkHeader(data).PErr? ==> r == Err(FromNom(Context("parsing chunk header", ParseChunkHeader(data)).err))
    ensures r.Ok? ==> ParseChunkHeader(data).POk? && r.value.1.header == ParseChunkHeader(data).value
    ensures r.Ok? ==> ReaderCut(data, r.value.0, r.value.1)
  {
    var (header, _) :- Lift(Context("parsing chunk header", ParseChunkHeader(data)));
    CutChunk(data, header)
  }

  /** The part of `SliceReader::new` after the header: the two cuts, then the metadata event. */
  function CutChunk(data: seq<Byte>, header: ChunkHeader): (r: Result<(seq<Byte>, SliceReader)>)
    ensures r.Ok? ==> r.value.1.header == header && ReaderCut(data, r.value.0, r.value.1)
  {
    var (chunkData, _) :- Lift(Context("resolving all chunk data", Take(data, header.chunkSize)));
    var _ :- Lift(Context("resolving potential metadata data", Take(chunkData, header.metadataPosition)));
    ReaderFrom(data, header)
  }

  /** The reader once both cuts are known to fit: the metadata event read from `metadata_position` on. */
  function ReaderFrom(data: seq<Byte>, header: ChunkHeader): (r: Result<(seq<Byte>, SliceReader)>)
    requires header.metadataPosition <= header.chunkSize <= |data|
    ensures r.Ok? ==> r.value.1.header == header && ReaderCut(data, r.value.0, r.value.1)
  {
    var (metadataHeader, metadataEventData) :- MetadataEvent(data[header.metadataPosition..header.chunkSize]);
    Ok((data[header.chunkSize..], SliceReader(data[..header.chunkSize], header, metadataHeader, metadataEventData)))
  }

  /** The metadata event of a reader is the first `size` bytes from `metadata_position` on, inside the chunk. */
  lemma ReaderLayout(data: seq<Byte>, remaining: seq<Byte>, reader: SliceReader)
    requires ReaderCut(data, remaining, reader)
    ensures reader.header.metadataPosition + AsUsize(reader.metadataHeader.size) <= reader.header.chunkSize
    ensures reader.metadataEventData ==
      data[reader.header.metadataPosition..reader.header.chunkSize][..AsUsize(reader.metadataHeader.size)]
  {
    var pos, cs := reader.header.metadataPosition, reader.header.chunkSize;
    MetadataEventLayout(data[pos..cs], reader.metadataHeader, reader.metadataEventData);
  }

  /** The metadata header a reader keeps is the one at the front of its metadata event. */
  lemma MetadataEventLayout(raw: seq<Byte>, h: MetadataRecords.MetadataHeader, event: seq<Byte>)
    requires MetadataEvent(raw) == Ok((h, event))
    ensures MetadataRecords.ParseMetadataHeader(raw).POk? && MetadataRecords.ParseMetadataHeader(raw).value == h
    ensures AsUsize(h.size) <= |raw| && event == raw[..AsUsize(h.size)]
  {
  }

  /** `ChunkReader::metadata`: the metadata event of the chunk, fully decoded. */
  function ReaderMetadata(reader: SliceReader): (r: Result<MetadataElements.ChunkMetadata>)
    ensures r.Ok? <==> MetadataElements.ParseMetadata(reader.metadataEventData).Ok?
    ensures r.Ok? ==> r.value == MetadataElements.ParseMetadata(reader.metadataEventData).value.1
  {
    var (_, metadata) :- MetadataElements.ParseMetadata(reader.metadataEventData);
    Ok(metadata)
  }

  // Event records

  /** The bytes an item frames: a record's, or none for an error. */
  function Framed(item: Result<Events.EventRecord>): seq<Byte>
  {
    if item.Ok? then item.value.eventData else []
  }

  /** The concatenated bytes of the records among `items`; an error consumes nothing. */
  function Consumed(items: seq<Result<Events.EventRecord>>): seq<Byte>
  {
    if |items| == 0 then [] else Framed(items[0]) + Consumed(items[1..])
  }

  lemma ConsumedCons(item: Result<Events.EventRecord>, items: seq<Result<Events.EventRecord>>)
    ensures Consumed([item] + items) == Framed(item) + Consumed(items)
  {
    assert ([item] + items)[1..] == items;
  }

  lemma {:induction false} ConsumedSnoc(items: seq<Result<Events.EventRecord>>, i: nat)
    requires i < |items|
    ensures Consumed(items[..i + 1]) == Consumed(items[..i]) + Framed(items[i])
    decreases i
  {
    if i > 0 {
      assert items[..i + 1][1..] == items[1..][..i];
      assert items[..i][1..] == items[1..][..i - 1];
      ConsumedSnoc(items[1..], i - 1);
      ConcatAssoc(Framed(items[0]), Consumed(items[1..][..i - 1]), Framed(items[i]));
    } else {
      assert items[..1][1..] == [];
    }
  }

  /** A record parser that frames its record at the front of the input. */
  ghost predicate Frames(parse: seq<Byte> -> PResult<Events.EventRecord>)
  {
    forall s :: parse(s).POk? ==> parse(s).value.eventData + parse(s).rest == s
  }

  /** One record parse as an iterator item. */
  function RecordItem(parse: seq<Byte> -> PResult<Events.EventRecord>, s: seq<Byte>): Result<Events.EventRecord>
  {
    match parse(s)
    case POk(rec, _) => Ok(rec)
    case PErr(e) => Err(FromNom(e))
  }

  /** Where the cursor goes after one parse: past the record, or nowhere on an error. */
  function Next(parse: seq<Byte> -> PResult<Events.EventRecord>, s: seq<Byte>): seq<Byte>
  {
    if parse(s).POk? then parse(s).rest else s
  }

  /** The item a framing parser produces, followed by where the cursor goes, is the input. */
  lemma FramedNext(parse: seq<Byte> -> PResult<Events.EventRecord>, s: seq<Byte>)
    requires Frames(parse)
    ensures s == Framed(RecordItem(parse, s)) + Next(parse, s)
  {
  }

  /**
   * The first `fuel` items of `iter_event_records` over `s`: a record is
   * parsed where the previous one ended, an error leaves the cursor where it
   * is, and the iteration ends when no bytes remain.
   */
  function ScanRecords(parse: seq<Byte> -> PResult<Events.EventRecord>, s: seq<Byte>, fuel: nat):
    (items: seq<Result<Events.EventRecord>>)
    requires Frames(parse)
    ensures |items| <= fuel
    ensures |items| == 0 <==> fuel == 0 || |s| == 0
    decreases fuel
  {
    if fuel == 0 || |s| == 0 then []
    else [RecordItem(parse, s)] + ScanRecords(parse, Next(parse, s), fuel - 1)
  }

  /** The records the scan returns are the input's first bytes, in order; all of it once the scan stops early. */
  lemma {:induction false} ScanConsumed(parse: seq<Byte> -> PResult<Events.EventRecord>, s: seq<Byte>, fuel: nat)
    requires Frames(parse)
    ensures var items := ScanRecords(parse, s, fuel);
      |Consumed(items)| <= |s| && s[..|Consumed(items)|] == Consumed(items) &&
      (|items| < fuel ==> Consumed(items) == s)
    decreases fuel
  {
    if fuel > 0 && |s| > 0 {
      var item := RecordItem(parse, s);
      var next := Next(parse, s);
      var tail := ScanRecords(parse, next, fuel - 1);
      ScanStep(parse, s, fuel);
      ScanConsumed(parse, next, fuel - 1);
      ConsumedCons(item, tail);
      FramedNext(parse, s);
      PrefixConcat(Framed(item), next, Consumed(tail));
    }
  }

  /** A prefix of what follows a head, behind that head, is a prefix of the whole. */
  lemma PrefixConcat(head: seq<Byte>, next: seq<Byte>, c: seq<Byte>)
    requires |c| <= |next| && next[..|c|] == c
    ensures (head + next)[..|head + c|] == head + c
  {
  }

  /** One step of the scan. */
  lemma ScanStep(parse: seq<Byte> -> PResult<Events.EventRecord>, s: seq<Byte>, fuel: nat)
    requires Frames(parse) && fuel > 0 && |s| > 0
    ensures ScanRecords(parse, s, fuel) == [RecordItem(parse, s)] + ScanRecords(parse, Next(parse, s), fuel - 1)
  {
  }

  /** Dropping past a prefix drops into what follows it. */
  lemma DropPast(head: seq<Byte>, next: seq<Byte>, k: nat)
    requires k <= |next|
    ensures (head + next)[|head| + k..] == next[k..]
  {
  }

  /** Each item is the record parsed right where the records before it end. */
  lemma {:induction false} ScanRecordsCursor(parse: seq<Byte> -> PResult<Events.EventRecord>, s: seq<Byte>, fuel: nat, i: nat)
    requires Frames(parse)
    requires i < |ScanRecords(parse, s, fuel)|
    ensures var items := ScanRecords(parse, s, fuel);
      |Consumed(items[..i])| < |s| && items[i] == RecordItem(parse, s[|Consumed(items[..i])|..])
    decreases fuel
  {
    var items := ScanRecords(parse, s, fuel);
    var item := RecordItem(parse, s);
    var next := Next(parse, s);
    var tail := ScanRecords(parse, next, fuel - 1);
    ScanStep(parse, s, fuel);
    if i == 0 {
      assert items[..0] == [];
    } else {
      ScanRecordsCursor(parse, next, fuel - 1, i - 1);
      assert items[..i] == [item] + tail[..i - 1];
      ConsumedCons(item, tail[..i - 1]);
      FramedNext(parse, s);
      DropPast(Framed(item), next, |Consumed(tail[..i - 1])|);
    }
  }

  /** An error is repeated for as long as the iteration runs: the cursor never moves past it. */
  lemma {:induction false} ScanErrorRepeats(parse: seq<Byte> -> PResult<Events.EventRecord>, s: seq<Byte>, fuel: nat)
    requires Frames(parse)
    requires |s| > 0 && parse(s).PErr?
    ensures ScanRecords(parse, s, fuel) == seq(fuel, _ => Err(FromNom(parse(s).err)))
    decreases fuel
  {
    if fuel > 0 {
      ScanErrorRepeats(parse, s, fuel - 1);
    }
  }

  /** The record parser of `chunk_event.rs` frames its record. */
  lemma EventRecordFrames()
    ensures Frames(Events.ParseEventRecord)
  {
  }

  /** A record parser that always consumes at least one byte. */
  ghost predicate Progresses(parse: seq<Byte> -> PResult<Events.EventRecord>)
  {
    forall s :: parse(s).POk? ==> |parse(s).rest| < |s|
  }

  /** The checked record parser frames its record and always consumes at least one byte. */
  lemma CheckedFrames()
    ensures Frames(Events.ParseEventRecordChecked)
    ensures Progresses(Events.ParseEventRecordChecked)
  {
  }

  /**
   * `iter_event_records` as written: the events start right after the
   * 68-byte header, a slice that panics when the chunk is shorter than that.
   */
  function IterEventRecords(reader: SliceReader, fuel: nat): (r: Result<seq<Result<Events.EventRecord>>>)
    ensures |reader.data| < HEADER_SIZE <==> r.Err?
    ensures r.Err? ==> r.error.Panic?
    ensures r.Ok? ==> (|r.value| == 0 <==> fuel == 0 || |reader.data| == HEADER_SIZE)
    ensures r.Ok? && |r.value| < fuel ==> reader.data == reader.data[..HEADER_SIZE] + Consumed(r.value)
  {
    EventRecordFrames();
    if |reader.data| < HEADER_SIZE then Err(Panic("range start index out of range for slice"))
    else
      var items := ScanRecords(Events.ParseEventRecord, reader.data[HEADER_SIZE..], fuel);
      ScanConsumed(Events.ParseEventRecord, reader.data[HEADER_SIZE..], fuel);
      assert reader.data == reader.data[..HEADER_SIZE] + reader.data[HEADER_SIZE..];
      Ok(items)
  }

  /**
   * Records whose header declares a size of 0 never advance: from the bytes
   * 0x00 0x05 on, the same record is returned for as long as the iteration runs.
   */
  lemma UndersizedRecordStalls(t: Byte, more: seq<Byte>, fuel: nat)
    requires t < 0x80
    ensures var s := [0x00, t] + more;
      ScanRecords(Events.ParseEventRecord, s, fuel) ==
        seq(fuel, _ => Ok(Events.EventRecord(Events.EventHeader(0, t), [], 2)))
  {
    EventRecordFrames();
    Events.UndersizedRecordAccepted(t, more);
    ScanStalls(Events.ParseEventRecord, [0x00, t] + more, Events.EventRecord(Events.EventHeader(0, t), [], 2), fuel);
  }

  /** A record that leaves the cursor where it was is returned for as long as the iteration runs. */
  lemma {:induction false} ScanStalls(parse: seq<Byte> -> PResult<Events.EventRecord>, s: seq<Byte>,
    rec: Events.EventRecord, fuel: nat)
    requires Frames(parse) && |s| > 0 && parse(s) == POk(rec, s)
    ensures ScanRecords(parse, s, fuel) == seq(fuel, _ => Ok(rec))
    decreases fuel
  {
    if fuel > 0 {
      ScanStep(parse, s, fuel);
      ScanStalls(parse, s, rec, fuel - 1);
      assert seq(fuel, _ => Ok(rec)) == [Ok(rec)] + seq(fuel - 1, _ => Ok(rec));
    }
  }

  /**
   * A parser that always consumes bytes either reports an error or runs out
   * of input within `|s| + 1` steps.
   */
  lemma {:induction false} ScanEnds(parse: seq<Byte> -> PResult<Events.EventRecord>, s: seq<Byte>, fuel: nat)
    requires Frames(parse) && Progresses(parse) && fuel > |s|
    ensures var items := ScanRecords(parse, s, fuel);
      (exists i :: 0 <= i < |items| && items[i].Err?) || |items| < fuel
    decreases |s|
  {
    if |s| > 0 {
      ScanStep(parse, s, fuel);
      var items := ScanRecords(parse, s, fuel);
      var tail := ScanRecords(parse, Next(parse, s), fuel - 1);
      if parse(s).PErr? {
        assert items[0].Err?;
      } else {
        ScanEnds(parse, Next(parse, s), fuel - 1);
        if exists i :: 0 <= i < |tail| && tail[i].Err? {
          var i :| 0 <= i < |tail| && tail[i].Err?;
          assert items[i + 1] == tail[i];
        }
      }
    }
  }

  /**
   * With the record-size check in place, every record consumes bytes, so
   * within `|s| + 1` steps the scan either reports an error or has framed
   * all of `s` and stopped.
   */
  lemma CheckedScanEnds(s: seq<Byte>, fuel: nat)
    requires fuel > |s|
    ensures Frames(Events.ParseEventRecordChecked)
    ensures var items := ScanRecords(Events.ParseEventRecordChecked, s, fuel);
      (exists i :: 0 <= i < |items| && items[i].Err?) || (|items| < fuel && Consumed(items) == s)
  {
    CheckedFrames();
    ScanEnds(Events.ParseEventRecordChecked, s, fuel);
    ScanConsumed(Events.ParseEventRecordChecked, s, fuel);
  }

  // The checkpoint chain

  /** `parse_constant_pool_event`: the checkpoint at `offset` (`i64 as usize`) of the chunk. */
  function CheckpointAt(data: seq<Byte>, offset: I64): (r: Result<ConstantPool.ConstantPoolEvent>)
    ensures AsUsize(offset) > |data| ==> r.Err? && r.error.ParseIncomplete?
    ensures AsUsize(offset) <= |data| ==>
      (r.Ok? <==> ConstantPool.ParseConstantPoolEvent(data[AsUsize(offset)..]).POk?)
    ensures r.Ok? ==> r.value == ConstantPool.ParseConstantPoolEvent(data[AsUsize(offset)..]).value
  {
    var (_, eventData) :- Lift(Context("resolving content pool event data", Take(data, AsUsize(offset))));
    var (event, _) :- Lift(Context("resolving constant pool event", ConstantPool.ParseConstantPoolEvent(eventData)));
    Ok(event)
  }

  /** One step of the chain: where it looked, with which delta, and what it found there. */
  datatype Visit = Visit(offset: int, delta: I64, result: Result<ConstantPool.ConstantPoolEvent>)

  /** The delta in force after a visit: the checkpoint's own, or the previous one after an error. */
  function NextDelta(v: Visit): I64
  {
    if v.result.Ok? then v.result.value.header.delta else v.delta
  }

  predicate InI64(x: int)
  {
    -TWO_63 <= x < TWO_63
  }

  /** The checkpoint reader of a chunk. */
  function Checkpoints(data: seq<Byte>): I64 -> Result<ConstantPool.ConstantPoolEvent>
  {
    (offset: I64) => CheckpointAt(data, offset)
  }

  /**
   * The first `fuel` steps of `iter_constant_pool_events` from the running
   * `offset` with `delta` pending. Each step adds the delta to the offset (an
   * `i64` sum, whose overflow panics) and parses the checkpoint there; a
   * checkpoint's own delta replaces the pending one, an error keeps it, and
   * a zero delta ends the chain. `at` reads the checkpoint at an offset.
   */
  function Chain(at: I64 -> Result<ConstantPool.ConstantPoolEvent>, offset: I64, delta: I64, fuel: nat): (visits: seq<Visit>)
    ensures |visits| <= fuel
    ensures |visits| == 0 <==> fuel == 0 || delta == 0
    decreases fuel
  {
    if fuel == 0 || delta == 0 then []
    else
      var next := offset + delta;
      if !InI64(next) then [Visit(next, delta, Err(Panic("attempt to add with overflow")))]
      else
        var v := Visit(next, delta, at(next));
        [v] + Chain(at, next, NextDelta(v), fuel - 1)
  }

  /** The first visit of a chain that runs, and the chain after it. */
  lemma ChainStep(at: I64 -> Result<ConstantPool.ConstantPoolEvent>, offset: I64, delta: I64, fuel: nat)
    requires fuel > 0 && delta != 0
    ensures var visits := Chain(at, offset, delta, fuel);
      var next := offset + delta;
      visits[0] == Visit(next, delta, if InI64(next) then at(next) else Err(Panic("attempt to add with overflow"))) &&
      (!InI64(next) ==> |visits| == 1) &&
      (InI64(next) ==> visits[1..] == Chain(at, next, NextDelta(visits[0]), fuel - 1))
  {
  }

  /** Every visit of a chain, by position. */
  ghost predicate ChainShape(at: I64 -> Result<ConstantPool.ConstantPoolEvent>, offset: I64, delta: I64, visits: seq<Visit>)
  {
    (|visits| > 0 ==> visits[0].offset == offset + delta && visits[0].delta == delta) &&
    (forall i :: 0 <= i < |visits| ==> visits[i].delta != 0) &&
    (forall i :: 0 <= i < |visits| - 1 ==>
      visits[i + 1].delta == NextDelta(visits[i]) && visits[i + 1].offset == visits[i].offset + visits[i + 1].delta) &&
    (forall i :: 0 <= i < |visits| ==>
      (InI64(visits[i].offset) ==> visits[i].result == at(visits[i].offset))) &&
    (forall i :: 0 <= i < |visits| ==>
      (!InI64(visits[i].offset) ==> visits[i].result == Err(Panic("attempt to add with overflow")) && i == |visits| - 1)) &&
    (forall i :: 0 <= i < |visits| ==> (NextDelta(visits[i]) == 0 ==> i == |visits| - 1))
  }

  /**
   * The chain visits the running sums of the deltas: each delta is the
   * previous checkpoint's own (or the pending one after an error), each
   * checkpoint is the one at that offset, an overflowing sum is the last
   * visit, and no visit has a zero delta.
   */
  lemma {:induction false} ChainVisits(at: I64 -> Result<ConstantPool.ConstantPoolEvent>, offset: I64, delta: I64, fuel: nat)
    ensures ChainShape(at, offset, delta, Chain(at, offset, delta, fuel))
    decreases fuel
  {
    var visits := Chain(at, offset, delta, fuel);
    if fuel > 0 && delta != 0 {
      ChainStep(at, offset, delta, fuel);
      var next := offset + delta;
      if InI64(next) {
        var v := visits[0];
        var tail := Chain(at, next, NextDelta(v), fuel - 1);
        ChainVisits(at, next, NextDelta(v), fuel - 1);
        ChainCons(at, offset, delta, v, tail);
        assert visits == [v] + tail;
      }
    }
  }

  /** A first checkpoint in front of a chain that starts at its offset with its delta. */
  lemma ChainCons(at: I64 -> Result<ConstantPool.ConstantPoolEvent>, offset: I64, delta: I64, v: Visit, tail: seq<Visit>)
    requires InI64(offset + delta) && delta != 0
    requires v == Visit(offset + delta, delta, at(offset + delta))
    requires ChainShape(at, offset + delta, NextDelta(v), tail)
    ensures ChainShape(at, offset, delta, [v] + tail)
  {
    var visits := [v] + tail;
    assert forall i :: 1 <= i < |visits| ==> visits[i] == tail[i - 1];
  }

  /** A chain stops early only at a zero delta. */
  lemma {:induction false} ChainStops(at: I64 -> Result<ConstantPool.ConstantPoolEvent>, offset: I64, delta: I64, fuel: nat)
    ensures var visits := Chain(at, offset, delta, fuel);
      0 < |visits| < fuel && InI64(visits[|visits| - 1].offset) ==> NextDelta(visits[|visits| - 1]) == 0
    decreases fuel
  {
    if fuel > 0 && delta != 0 && InI64(offset + delta) {
      ChainStep(at, offset, delta, fuel);
      var visits := Chain(at, offset, delta, fuel);
      ChainStops(at, offset + delta, NextDelta(visits[0]), fuel - 1);
    }
  }

  /**
   * `iter_constant_pool_events`: the chain starts at offset 0 with the
   * header's `constant_pool_position` (`u64 as i64`) pending, so the first
   * checkpoint is read at that position.
   */
  function ConstantPoolVisits(reader: SliceReader, fuel: nat): (visits: seq<Visit>)
    ensures |visits| > 0 ==> visits[0].offset == ToI64(reader.header.constantPoolPosition)
    ensures |visits| > 0 ==> visits[0].result == CheckpointAt(reader.data, ToI64(reader.header.constantPoolPosition))
    ensures |visits| == 0 <==> fuel == 0 || reader.header.constantPoolPosition == 0
  {
    var visits := Chain(Checkpoints(reader.data), 0, ToI64(reader.header.constantPoolPosition), fuel);
    if |visits| == 0 then visits
    else
      ChainStep(Checkpoints(reader.data), 0, ToI64(reader.header.constantPoolPosition), fuel);
      visits
  }

  /** A checkpoint whose own delta is zero is the last one visited. */
  lemma ChainEndsAtZeroDelta(at: I64 -> Result<ConstantPool.ConstantPoolEvent>, offset: I64, delta: I64, fuel: nat, i: nat)
    requires i < |Chain(at, offset, delta, fuel)|
    requires Chain(at, offset, delta, fuel)[i].result.Ok?
    requires Chain(at, offset, delta, fuel)[i].result.value.header.delta == 0
    ensures |Chain(at, offset, delta, fuel)| == i + 1
  {
    ChainVisits(at, offset, delta, fuel);
  }

  /** The checkpoints of the chain in order, or the first error (`collect::<Result<Vec<_>>>()`). */
  function CollectVisits(visits: seq<Visit>): (r: Result<seq<ConstantPool.ConstantPoolEvent>>)
    ensures r.Ok? <==> forall i :: 0 <= i < |visits| ==> visits[i].result.Ok?
    ensures r.Ok? ==> |r.value| == |visits| && forall i :: 0 <= i < |visits| ==> visits[i].result == Ok(r.value[i])
    ensures r.Err? ==>
      exists i :: 0 <= i < |visits| && visits[i].result == Err(r.error) && forall j :: 0 <= j < i ==> visits[j].result.Ok?
  {
    Collect((v: Visit) => v.result, visits)
  }

  /**
   * The checkpoints `ChunkReader::resolver` collects. `None` when `fuel`
   * steps pass with neither an error nor a zero delta: on such a chain the
   * source loops for ever.
   */
  function ConstantPools(reader: SliceReader, fuel: nat): (r: Option<Result<seq<ConstantPool.ConstantPoolEvent>>>)
    ensures var visits := ConstantPoolVisits(reader, fuel);
      r.None? <==> |visits| >= fuel && forall i :: 0 <= i < |visits| ==> visits[i].result.Ok?
    ensures var visits := ConstantPoolVisits(reader, fuel);
      r.Some? && r.value.Ok? ==> (|visits| < fuel && |r.value.value| == |visits| &&
        forall i :: 0 <= i < |visits| ==> visits[i].result == Ok(r.value.value[i]))
    ensures var visits := ConstantPoolVisits(reader, fuel);
      r.Some? && r.value.Err? ==>
        exists i :: 0 <= i < |visits| && visits[i].result == Err(r.value.error) && forall j :: 0 <= j < i ==> visits[j].result.Ok?
  {
    var visits := ConstantPoolVisits(reader, fuel);
    var collected := CollectVisits(visits);
    if collected.Err? || |visits| < fuel then Some(collected) else None
  }
}
