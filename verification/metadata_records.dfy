/**
 * The byte layer of the metadata event (jfr-reader/src/metadata.rs): its
 * header, the string table records that follow, and the tree of element
 * records whose names and attributes are string-table indices.
 */
module MetadataRecords {
  import opened Ints
  import opened Errors
  import opened Nom
  import opened Leb128
  import StringTable

  datatype MetadataHeader = MetadataHeader(
    size: I32,
    eventTypeId: I64,
    startTimeNanoseconds: I64,
    durationNanoseconds: I64,
    metadataId: I64,
    stringCount: I32)

  /**
   * `MetadataHeader::parse`: an i32 varint, four i64 varints, an i32 varint.
   * As in the checkpoint header, the four consecutive i64 reads are written
   * as one `count`.
   */
  function ParseMetadataHeader(s: seq<Byte>): (r: PResult<MetadataHeader>)
  {
    match ReadI32(s)
    case PErr(e) => PErr(e)
    case POk(size, s1) =>
      match Nom.Count(ReadI64, s1, 4)
      case PErr(e) => PErr(e)
      case POk(t, s2) =>
        match ReadI32(s2)
        case PErr(e) => PErr(e)
        case POk(stringCount, s3) =>
          POk(MetadataHeader(size, t[0], t[1], t[2], t[3], stringCount), s3)
  }

  /** The bytes `ParseMetadataHeader` reads. */
  function EncodeMetadataHeader(h: MetadataHeader): seq<Byte>
  {
    Encode(AsUsize(h.size))
    + (ConcatMap(EncodeI64, [h.eventTypeId, h.startTimeNanoseconds, h.durationNanoseconds, h.metadataId])
       + Encode(AsUsize(h.stringCount)))
  }

  /** The header parse, given the outcome of each of its reads. */
  lemma MetadataHeaderSteps(s: seq<Byte>, h: MetadataHeader, s1: seq<Byte>, s2: seq<Byte>, rest: seq<Byte>)
    requires ReadI32(s) == POk(h.size, s1)
    requires Nom.Count(ReadI64, s1, 4) == POk([h.eventTypeId, h.startTimeNanoseconds, h.durationNanoseconds, h.metadataId], s2)
    requires ReadI32(s2) == POk(h.stringCount, rest)
    ensures ParseMetadataHeader(s) == POk(h, rest)
  {
  }

  /** Every metadata header reads back, whatever follows it; the six fields come in declared order. */
  lemma MetadataHeaderRoundTrip(h: MetadataHeader, rest: seq<Byte>)
    ensures ParseMetadataHeader(EncodeMetadataHeader(h) + rest) == POk(h, rest)
  {
    var a := Encode(AsUsize(h.size));
    var t := [h.eventTypeId, h.startTimeNanoseconds, h.durationNanoseconds, h.metadataId];
    var m := ConcatMap(EncodeI64, t);
    var c := Encode(AsUsize(h.stringCount));
    ConcatAssoc(a, m + c, rest);
    ConcatAssoc(m, c, rest);
    RoundTripI32(h.size, m + (c + rest));
    CountI64s(t, c + rest);
    RoundTripI32(h.stringCount, rest);
    MetadataHeaderSteps(EncodeMetadataHeader(h) + rest, h, m + (c + rest), c + rest, rest);
  }

  /** An element: its name's string index, key/value string-index pairs, and its children in order. */
  datatype ElementRecord = ElementRecord(nameIndex: U32, attributes: seq<(I32, I32)>, children: seq<ElementRecord>)

  /** `pair(leb128_i32, leb128_i32)`. */
  function ParsePair(s: seq<Byte>): (r: PResult<(I32, I32)>)
    ensures r.POk? ==> |r.rest| < |s|
  {
    match ReadI32(s)
    case PErr(e) => PErr(e)
    case POk(k, s1) =>
      match ReadI32(s1)
      case PErr(e) => PErr(e)
      case POk(v, s2) => POk((k, v), s2)
  }

  /** `count` never lengthens the input when its item parser does not. */
  lemma {:induction false} CountShrinks<T>(f: seq<Byte> -> PResult<T>, s: seq<Byte>, n: nat)
    requires forall x :: f(x).POk? ==> |f(x).rest| <= |x|
    ensures Nom.Count(f, s, n).POk? ==> |Nom.Count(f, s, n).rest| <= |s|
    decreases n
  {
    if n > 0 && f(s).POk? {
      CountShrinks(f, f(s).rest, n - 1);
    }
  }

  /** Reading attribute pairs never lengthens the input. */
  lemma PairsShrink(s: seq<Byte>, n: nat)
    ensures Nom.Count(ParsePair, s, n).POk? ==> |Nom.Count(ParsePair, s, n).rest| <= |s|
  {
    CountShrinks(ParsePair, s, n);
  }

  /**
   * `ElementRecord::parse`, one stage per function so that each stage is
   * unfolded only on demand: an i32 name index (kept as `u32`), then the
   * attributes, then the children.
   */
  function ParseElement(s: seq<Byte>): (r: PResult<ElementRecord>)
    ensures r.POk? ==> |r.rest| < |s|
    decreases |s|, 3
  {
    match ReadI32(s)
    case PErr(e) => PErr(e)
    case POk(nameIndex, s1) => ParseAttributesThen(AsU32(nameIndex), s1)
  }

  /**
   * An i32 attribute count and that many key/value pairs. The count is
   * `i32 as usize`, so a negative count asks for about 2^64 pairs and the
   * parse runs out of input.
   */
  function ParseAttributesThen(nameIndex: U32, s: seq<Byte>): (r: PResult<ElementRecord>)
    ensures r.POk? ==> |r.rest| < |s|
    decreases |s|, 2
  {
    match ReadI32(s)
    case PErr(e) => PErr(e)
    case POk(attributeCount, s1) =>
      match Nom.Count(ParsePair, s1, AsUsize(attributeCount))
      case PErr(e) => PErr(e)
      case POk(attributes, s2) =>
        PairsShrink(s1, AsUsize(attributeCount));
        ParseChildrenThen(nameIndex, attributes, s2)
  }

  /** An i32 child count and that many elements, under the context "reading element child records". */
  function ParseChildrenThen(nameIndex: U32, attributes: seq<(I32, I32)>, s: seq<Byte>): (r: PResult<ElementRecord>)
    ensures r.POk? ==> |r.rest| < |s|
    decreases |s|, 1
  {
    match ReadI32(s)
    case PErr(e) => PErr(e)
    case POk(childCount, s1) =>
      match Context("reading element child records", ParseChildren(s1, AsUsize(childCount)))
      case PErr(e) => PErr(e)
      case POk(children, s2) => POk(ElementRecord(nameIndex, attributes, children), s2)
  }

  /** `count(ElementRecord::parse, n)`, written out so that the recursion through it is visible. */
  function ParseChildren(s: seq<Byte>, n: nat): (r: PResult<seq<ElementRecord>>)
    ensures r.POk? ==> |r.value| == n && |r.rest| <= |s|
    decreases |s|, 4, n
  {
    if n == 0 then POk([], s)
    else
      match ParseElement(s)
      case PErr(Error(e)) => PErr(Error(Append(s, ErrorKind.Count, e)))
      case PErr(e) => PErr(e)
      case POk(c, s1) =>
        match ParseChildren(s1, n - 1)
        case PErr(e) => PErr(e)
        case POk(cs, s2) => POk([c] + cs, s2)
  }

  /** One more child in front of a successful children loop. */
  lemma ChildrenCons(s: seq<Byte>, c: ElementRecord, s1: seq<Byte>, cs: seq<ElementRecord>, rest: seq<Byte>)
    requires ParseElement(s) == POk(c, s1)
    requires ParseChildren(s1, |cs|) == POk(cs, rest)
    ensures ParseChildren(s, |cs| + 1) == POk([c] + cs, rest)
  {
  }

  /** The signed varint that `as u32` turns back into `u`. */
  function SignedOf(u: U32): (x: I32)
    ensures AsU32(x) == u
  {
    if u < TWO_31 then u else u - TWO_32
  }

  function EncodePair(p: (I32, I32)): seq<Byte>
  {
    EncodeI32(p.0) + EncodeI32(p.1)
  }

  /** A count as the `i32` varint the parser reads; exact below 2^31. */
  function EncodeCount(n: nat): seq<Byte>
  {
    Encode(n % TWO_31)
  }

  /** The bytes of an element record, children included. */
  function EncodeElement(e: ElementRecord): seq<Byte>
    decreases e
  {
    EncodeI32(SignedOf(e.nameIndex))
    + (EncodeCount(|e.attributes|)
       + (ConcatMap(EncodePair, e.attributes)
          + (EncodeCount(|e.children|) + EncodeChildren(e.children))))
  }

  function EncodeChildren(cs: seq<ElementRecord>): seq<Byte>
    decreases cs
  {
    if |cs| == 0 then [] else EncodeElement(cs[0]) + EncodeChildren(cs[1..])
  }

  /** Every count in the tree fits the `i32` the format stores. */
  predicate Writable(e: ElementRecord)
    decreases e
  {
    |e.attributes| < TWO_31 && |e.children| < TWO_31 &&
    forall i :: 0 <= i < |e.children| ==> Writable(e.children[i])
  }

  lemma PairRoundTrip(p: (I32, I32), rest: seq<Byte>)
    ensures ParsePair(EncodePair(p) + rest) == POk(p, rest)
  {
    ConcatAssoc(EncodeI32(p.0), EncodeI32(p.1), rest);
    RoundTripI32(p.0, EncodeI32(p.1) + rest);
    RoundTripI32(p.1, rest);
  }

  /** An attribute list reads back through `count(pair(..), n)`. */
  lemma AttributesRoundTrip(attrs: seq<(I32, I32)>, rest: seq<Byte>)
    ensures Nom.Count(ParsePair, ConcatMap(EncodePair, attrs) + rest, |attrs|) == POk(attrs, rest)
  {
    forall p: (I32, I32), r: seq<Byte> ensures ParsePair(EncodePair(p) + r) == POk(p, r) {
      PairRoundTrip(p, r);
    }
    CountConcat(ParsePair, EncodePair, attrs, rest);
  }

  /** A count below 2^31 reads back as itself, and as the same `usize`. */
  lemma CountRoundTrip(n: nat, rest: seq<Byte>)
    requires n < TWO_31
    ensures ReadI32(EncodeCount(n) + rest) == POk(n, rest)
    ensures AsUsize(n) == n
  {
    var x: I32 := n;
    assert EncodeCount(n) == EncodeI32(x) by {
      assert n % TWO_31 == n;
    }
    RoundTripI32(x, rest);
  }

  /** The element parse, given the outcome of each of its reads. */
  lemma ElementSteps(s: seq<Byte>, e: ElementRecord, s1: seq<Byte>, s2: seq<Byte>, s3: seq<Byte>, s4: seq<Byte>, rest: seq<Byte>)
    requires ReadI32(s) == POk(SignedOf(e.nameIndex), s1)
    requires ReadI32(s1) == POk(|e.attributes|, s2) && |e.attributes| < TWO_31
    requires Nom.Count(ParsePair, s2, |e.attributes|) == POk(e.attributes, s3)
    requires ReadI32(s3) == POk(|e.children|, s4) && |e.children| < TWO_31
    requires ParseChildren(s4, |e.children|) == POk(e.children, rest)
    ensures ParseElement(s) == POk(e, rest)
  {
    assert ParseChildrenThen(e.nameIndex, e.attributes, s3) == POk(e, rest);
    assert ParseAttributesThen(e.nameIndex, s1) == POk(e, rest);
  }

  /** Every writable element tree reads back, whatever follows it. */
  lemma {:induction false} ElementRoundTrip(e: ElementRecord, rest: seq<Byte>)
    requires Writable(e)
    ensures ParseElement(EncodeElement(e) + rest) == POk(e, rest)
    decreases e, 1
  {
    var a := EncodeI32(SignedOf(e.nameIndex));
    var b := EncodeCount(|e.attributes|);
    var c := ConcatMap(EncodePair, e.attributes);
    var d := EncodeCount(|e.children|);
    var f := EncodeChildren(e.children);
    ConcatAssoc(a, b + (c + (d + f)), rest);
    ConcatAssoc(b, c + (d + f), rest);
    ConcatAssoc(c, d + f, rest);
    ConcatAssoc(d, f, rest);
    RoundTripI32(SignedOf(e.nameIndex), b + (c + (d + (f + rest))));
    CountRoundTrip(|e.attributes|, c + (d + (f + rest)));
    AttributesRoundTrip(e.attributes, d + (f + rest));
    CountRoundTrip(|e.children|, f + rest);
    ChildrenRoundTrip(e.children, rest);
    ElementSteps(EncodeElement(e) + rest, e, b + (c + (d + (f + rest))), c + (d + (f + rest)),
      d + (f + rest), f + rest, rest);
  }

  /** The bytes of a non-empty children list: the first child's, then the others'. */
  lemma EncodeChildrenCons(cs: seq<ElementRecord>, rest: seq<Byte>)
    requires |cs| > 0
    ensures EncodeChildren(cs) + rest == EncodeElement(cs[0]) + (EncodeChildren(cs[1..]) + rest)
  {
    ConcatAssoc(EncodeElement(cs[0]), EncodeChildren(cs[1..]), rest);
  }

  /** A sequence of writable children reads back through the children loop. */
  lemma {:induction false} ChildrenRoundTrip(cs: seq<ElementRecord>, rest: seq<Byte>)
    requires forall i :: 0 <= i < |cs| ==> Writable(cs[i])
    ensures ParseChildren(EncodeChildren(cs) + rest, |cs|) == POk(cs, rest)
    decreases cs, 0
  {
    if |cs| > 0 {
      var t := EncodeChildren(cs[1..]) + rest;
      EncodeChildrenCons(cs, rest);
      ElementRoundTrip(cs[0], t);
      ChildrenRoundTrip(cs[1..], rest);
      ChildrenCons(EncodeChildren(cs) + rest, cs[0], t, cs[1..], rest);
      assert [cs[0]] + cs[1..] == cs;
    }
  }

  /** The lightly parsed metadata event: header, string table records, root element. */
  datatype MetadataRecords = MetadataRecords(
    header: MetadataHeader,
    stringRecords: seq<StringTable.StringRecord>,
    root: ElementRecord)

  /**
   * `MetadataRecords::parse`: the header, `string_count as usize` string
   * records, then one root element, each step under its own context label.
   */
  function ParseMetadataRecords(s: seq<Byte>): (r: PResult<MetadataRecords>)
  {
    match Context("parsing metadata event header", ParseMetadataHeader(s))
    case PErr(e) => PErr(e)
    case POk(header, s1) =>
      match Context("reading string table records",
                    Nom.Count(StringTable.ParseRecord, s1, AsUsize(header.stringCount)))
      case PErr(e) => PErr(e)
      case POk(strings, s2) =>
        match Context("parsing root element record", ParseElement(s2))
        case PErr(e) => PErr(e)
        case POk(root, s3) => POk(MetadataRecords(header, strings, root), s3)
  }

  /** The records parse, given the outcome of each of its steps. */
  lemma RecordsSteps(s: seq<Byte>, m: MetadataRecords, s1: seq<Byte>, s2: seq<Byte>, rest: seq<Byte>)
    requires ParseMetadataHeader(s) == POk(m.header, s1)
    requires Nom.Count(StringTable.ParseRecord, s1, AsUsize(m.header.stringCount)) == POk(m.stringRecords, s2)
    requires ParseElement(s2) == POk(m.root, rest)
    ensures ParseMetadataRecords(s) == POk(m, rest)
  {
  }

  /** The records of a metadata event whose header counts its strings exactly and whose parts are writable. */
  predicate WritableRecords(m: MetadataRecords)
  {
    m.header.stringCount == |m.stringRecords| &&
    (forall i :: 0 <= i < |m.stringRecords| ==> StringTable.Writable(m.stringRecords[i])) &&
    Writable(m.root)
  }

  function EncodeStringRecord(r: StringTable.StringRecord): seq<Byte>
  {
    if StringTable.Writable(r) then StringTable.EncodeRecord(r) else []
  }

  function EncodeMetadataRecords(m: MetadataRecords): seq<Byte>
  {
    EncodeMetadataHeader(m.header)
    + (ConcatMap(EncodeStringRecord, m.stringRecords) + EncodeElement(m.root))
  }

  /** A metadata event's records read back in order: the header, exactly `string_count` strings, the root. */
  lemma MetadataRecordsRoundTrip(m: MetadataRecords, rest: seq<Byte>)
    requires WritableRecords(m)
    ensures ParseMetadataRecords(EncodeMetadataRecords(m) + rest) == POk(m, rest)
  {
    var h := EncodeMetadataHeader(m.header);
    var t := ConcatMap(EncodeStringRecord, m.stringRecords);
    var e := EncodeElement(m.root);
    ConcatAssoc(h, t + e, rest);
    ConcatAssoc(t, e, rest);
    MetadataHeaderRoundTrip(m.header, t + (e + rest));
    forall x, r | x in m.stringRecords
      ensures StringTable.ParseRecord(EncodeStringRecord(x) + r) == POk(x, r)
    {
      StringTable.RecordRoundTrip(x, r);
    }
    CountConcat(StringTable.ParseRecord, EncodeStringRecord, m.stringRecords, e + rest);
    ElementRoundTrip(m.root, rest);
    RecordsSteps(EncodeMetadataRecords(m) + rest, m, t + (e + rest), e + rest, rest);
  }
}
