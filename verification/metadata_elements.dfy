/**
 * Typing the metadata element tree (jfr-reader/src/metadata.rs). Element
 * records name themselves through string-table entries; `RawElement::from_record`
 * sorts them into the seven element kinds and checks which children each
 * kind may hold, the `*Element::from_raw` conversions resolve and check the
 * attributes, and `Metadata::from_records` finishes with the class-id map.
 *
 * The lazy string table is replaced by `StringTable.Lookup` over the
 * records: `StringTable.GetAgreesWithLookup` shows the cache never changes
 * what a lookup returns.
 */
module MetadataElements {
  import opened Ints
  import opened Errors
  import Text
  import StringTable
  import MetadataRecords

  type Records = seq<StringTable.StringRecord>
  type Attributes = seq<(I32, I32)>
  type Pairs = seq<(string, string)>

  const NO_INLINE_DATA := "referenced string does not have inline data"

  /** `get_str`: a string-table entry that must hold inline text; the `i32` index is sign-extended. */
  function GetStr(st: Records, index: I32): (r: Result<string>)
    ensures StringTable.Lookup(st, AsUsize(index)).Err? ==> r == Err(StringTable.Lookup(st, AsUsize(index)).error)
    ensures r.Ok? ==> StringTable.Lookup(st, AsUsize(index)) == Ok(StringTable.Text(r.value))
    ensures StringTable.Lookup(st, AsUsize(index)).Ok? && StringTable.Lookup(st, AsUsize(index)).value.Text? ==>
      r == Ok(StringTable.Lookup(st, AsUsize(index)).value.text)
    ensures r.Err? ==> !r.error.Panic?
    ensures StringTable.Lookup(st, AsUsize(index)).Ok? && !StringTable.Lookup(st, AsUsize(index)).value.Text? ==>
      r == Err(ElementConstructLogic(NO_INLINE_DATA))
  {
    var v :- StringTable.Lookup(st, AsUsize(index));
    match v
    case Text(t) => Ok(t)
    case _ => Err(ElementConstructLogic(NO_INLINE_DATA))
  }

  // Attributes

  /** Which attribute keys an element accepts: an annotation takes any key. */
  datatype KeyRule = AnyKey | OnlyKeys(keys: set<string>, element: string)

  predicate Accepts(rule: KeyRule, key: string)
  {
    rule.AnyKey? || key in rule.keys
  }

  /** One turn of an attribute loop: the key is resolved, then the value, then the key is checked. */
  function ResolvePair(st: Records, rule: KeyRule, p: (I32, I32)): (r: Result<(string, string)>)
    ensures r.Ok? <==> GetStr(st, p.0).Ok? && GetStr(st, p.1).Ok? && Accepts(rule, GetStr(st, p.0).value)
    ensures r.Ok? ==> r.value == (GetStr(st, p.0).value, GetStr(st, p.1).value)
    ensures GetStr(st, p.0).Err? ==> r == Err(GetStr(st, p.0).error)
    ensures r.Err? ==> !r.error.Panic?
  {
    var k :- GetStr(st, p.0);
    var v :- GetStr(st, p.1);
    if Accepts(rule, k) then Ok((k, v))
    else Err(ElementConstructLogic(rule.element + " element has unexpected attribute: " + k))
  }

  /** An attribute loop over all pairs, in order; the first failing pair ends it. */
  function ResolveAttributes(st: Records, rule: KeyRule, attrs: Attributes): (r: Result<Pairs>)
  {
    Collect(p => ResolvePair(st, rule, p), attrs)
  }

  /** Every resolved key is one the element accepts, and the pairs keep their order and number. */
  lemma ResolvedKeysAccepted(st: Records, rule: KeyRule, attrs: Attributes)
    ensures ResolveAttributes(st, rule, attrs).Ok? <==>
      forall i :: 0 <= i < |attrs| ==> ResolvePair(st, rule, attrs[i]).Ok?
    ensures var r := ResolveAttributes(st, rule, attrs);
      r.Ok? ==> (|r.value| == |attrs| &&
        forall i :: 0 <= i < |attrs| ==>
          Accepts(rule, r.value[i].0) && GetStr(st, attrs[i].0) == Ok(r.value[i].0) && GetStr(st, attrs[i].1) == Ok(r.value[i].1))
    ensures var r := ResolveAttributes(st, rule, attrs);
      r.Err? ==> !r.error.Panic?
  {
    var f := p => ResolvePair(st, rule, p);
    assert forall i :: 0 <= i < |attrs| ==> f(attrs[i]) == ResolvePair(st, rule, attrs[i]);
  }

  /** Pair `i` holds the last occurrence of `key`. */
  predicate LastAt(pairs: Pairs, key: string, i: int)
  {
    0 <= i < |pairs| && pairs[i].0 == key && forall j :: i < j < |pairs| ==> pairs[j].0 != key
  }

  /**
   * What a loop of `Option::replace` on `key` leaves, starting from `acc`:
   * the value of the last pair with that key, or `acc` when there is none.
   */
  function Replaced(pairs: Pairs, key: string, acc: Option<string>): (r: Option<string>)
    ensures (forall i :: 0 <= i < |pairs| ==> pairs[i].0 != key) ==> r == acc
    ensures (exists i :: 0 <= i < |pairs| && pairs[i].0 == key) ==>
      exists i :: LastAt(pairs, key, i) && r == Some(pairs[i].1)
    decreases |pairs|
  {
    if |pairs| == 0 then acc
    else
      var r := Replaced(pairs[1..], key, if pairs[0].0 == key then Some(pairs[0].1) else acc);
      assert forall j :: 1 <= j < |pairs| ==> pairs[1..][j - 1] == pairs[j];
      r
  }

  /** The last value given to `key`, if any. */
  function LastValue(pairs: Pairs, key: string): Option<string>
  {
    Replaced(pairs, key, None)
  }

  /** No pair has `key`. */
  predicate NoKey(pairs: Pairs, key: string)
  {
    forall i :: 0 <= i < |pairs| ==> pairs[i].0 != key
  }

  /** `v` is the value of the last pair with `key`. */
  ghost predicate IsLastValue(pairs: Pairs, key: string, v: string)
  {
    exists i :: LastAt(pairs, key, i) && pairs[i].1 == v
  }

  /** A repeated attribute takes its last value, and a missing one is `None`. */
  lemma LastValueIsLast(pairs: Pairs, key: string)
    ensures LastValue(pairs, key).None? <==> NoKey(pairs, key)
    ensures LastValue(pairs, key).Some? ==> IsLastValue(pairs, key, LastValue(pairs, key).value)
  {
  }

  /** The pairs whose key is not `key`, in order. */
  function Without(pairs: Pairs, key: string): (r: Pairs)
    ensures forall p :: p in r <==> p in pairs && p.0 != key
    ensures (exists i :: 0 <= i < |pairs| && pairs[i].0 == key) ==> |r| < |pairs|
    ensures |r| <= |pairs|
    decreases |pairs|
  {
    if |pairs| == 0 then []
    else
      var tail := Without(pairs[1..], key);
      assert forall j :: 1 <= j < |pairs| ==> pairs[1..][j - 1] == pairs[j];
      if pairs[0].0 == key then tail else [pairs[0]] + tail
  }

  /** A mandatory attribute. */
  function Required(v: Option<string>, message: string): (r: Result<string>)
    ensures r.Ok? <==> v.Some?
    ensures r.Ok? ==> r.value == v.value
    ensures r.Err? ==> r.error == ElementConstructLogic(message)
  {
    if v.Some? then Ok(v.value) else Err(ElementConstructLogic(message))
  }

  /** `i64::from_str` on an attribute value; the Rust error text after the message is not modelled. */
  function ParseId(text: string, message: string): (r: Result<I64>)
    ensures r.Ok? <==> Text.ParseI64(text).Some?
    ensures r.Ok? ==> r.value == Text.ParseI64(text).value
    ensures r.Err? ==> r.error == ElementConstructLogic(message)
  {
    match Text.ParseI64(text)
    case Some(x) => Ok(x)
    case None => Err(ElementConstructLogic(message))
  }

  // Lightly typed elements: kinds and children known, attributes unresolved

  datatype RawAnnotation = RawAnnotation(attributes: Attributes)
  datatype RawField = RawField(annotations: seq<RawAnnotation>, attributes: Attributes)
  datatype RawSetting = RawSetting(annotations: seq<RawAnnotation>, attributes: Attributes)
  datatype RawClass = RawClass(
    annotations: seq<RawAnnotation>,
    fields: seq<RawField>,
    settings: seq<RawSetting>,
    attributes: Attributes)
  datatype RawMetadata = RawMetadata(classes: seq<RawClass>, attributes: Attributes)
  datatype RawRegion = RawRegion(attributes: Attributes)
  datatype RawRoot = RawRoot(metadata: RawMetadata, region: RawRegion, attributes: Attributes)

  datatype RawElement =
    | Annotation(rawAnnotation: RawAnnotation)
    | Class(rawClass: RawClass)
    | Field(rawField: RawField)
    | Metadata(rawMetadata: RawMetadata)
    | Region(rawRegion: RawRegion)
    | Root(rawRoot: RawRoot)
    | Setting(rawSetting: RawSetting)

  /** The seven element kinds, by the names that select them. */
  datatype Kind = AnnotationKind | ClassKind | FieldKind | MetadataKind | RegionKind | RootKind | SettingKind

  function KindName(k: Kind): string
  {
    match k
    case AnnotationKind => "annotation"
    case ClassKind => "class"
    case FieldKind => "field"
    case MetadataKind => "metadata"
    case RegionKind => "region"
    case RootKind => "root"
    case SettingKind => "setting"
  }

  /** The `match name` of `from_record`: the kind a name selects, if any. */
  function KindOf(name: string): (r: Option<Kind>)
    ensures r.Some? ==> KindName(r.value) == name
    ensures r.None? ==> forall k: Kind :: KindName(k) != name
  {
    if name == "annotation" then Some(AnnotationKind)
    else if name == "class" then Some(ClassKind)
    else if name == "field" then Some(FieldKind)
    else if name == "metadata" then Some(MetadataKind)
    else if name == "region" then Some(RegionKind)
    else if name == "root" then Some(RootKind)
    else if name == "setting" then Some(SettingKind)
    else None
  }

  /** Every kind is selected by its own name and by no other. */
  lemma KindOfName(k: Kind)
    ensures KindOf(KindName(k)) == Some(k)
  {
  }

  function KindOfElement(el: RawElement): Kind
  {
    match el
    case Annotation(_) => AnnotationKind
    case Class(_) => ClassKind
    case Field(_) => FieldKind
    case Metadata(_) => MetadataKind
    case Region(_) => RegionKind
    case Root(_) => RootKind
    case Setting(_) => SettingKind
  }

  /** `RawElement::name`. */
  function Name(el: RawElement): string
  {
    KindName(KindOfElement(el))
  }

  /** `RawElement::attributes`. */
  function AttributesOf(el: RawElement): Attributes
  {
    match el
    case Annotation(x) => x.attributes
    case Class(x) => x.attributes
    case Field(x) => x.attributes
    case Metadata(x) => x.attributes
    case Region(x) => x.attributes
    case Root(x) => x.attributes
    case Setting(x) => x.attributes
  }

  /** The annotations among `els`, in order. */
  function AnnotationsOf(els: seq<RawElement>): seq<RawAnnotation>
  {
    if |els| == 0 then []
    else (if els[0].Annotation? then [els[0].rawAnnotation] else []) + AnnotationsOf(els[1..])
  }

  /** The fields among `els`, in order. */
  function FieldsOf(els: seq<RawElement>): seq<RawField>
  {
    if |els| == 0 then []
    else (if els[0].Field? then [els[0].rawField] else []) + FieldsOf(els[1..])
  }

  /** The settings among `els`, in order. */
  function SettingsOf(els: seq<RawElement>): seq<RawSetting>
  {
    if |els| == 0 then []
    else (if els[0].Setting? then [els[0].rawSetting] else []) + SettingsOf(els[1..])
  }

  predicate ClassChild(el: RawElement)
  {
    el.Annotation? || el.Field? || el.Setting?
  }

  /**
   * The loop over a class's children: annotations, fields and settings are
   * pushed onto their lists in order; the first child of any other kind
   * stops it.
   */
  function SortClassChildren(els: seq<RawElement>): (r: Result<(seq<RawAnnotation>, seq<RawField>, seq<RawSetting>)>)
    ensures r.Ok? <==> forall i :: 0 <= i < |els| ==> ClassChild(els[i])
    ensures r.Ok? ==> r.value == (AnnotationsOf(els), FieldsOf(els), SettingsOf(els))
    ensures r.Err? ==> exists i :: (0 <= i < |els| && !ClassChild(els[i]) &&
      r.error == ElementConstructLogic("unexpected " + Name(els[i]) + " element in class element"))
    decreases |els|
  {
    if |els| == 0 then Ok(([], [], []))
    else if !ClassChild(els[0]) then
      Err(ElementConstructLogic("unexpected " + Name(els[0]) + " element in class element"))
    else
      assert forall j :: 1 <= j < |els| ==> els[1..][j - 1] == els[j];
      var (annotations, fields, settings) :- SortClassChildren(els[1..]);
      match els[0]
      case Annotation(a) =>
        assert FieldsOf(els) == fields && SettingsOf(els) == settings;
        Ok(([a] + annotations, fields, settings))
      case Field(f) =>
        assert AnnotationsOf(els) == annotations && SettingsOf(els) == settings;
        Ok((annotations, [f] + fields, settings))
      case Setting(x) =>
        assert AnnotationsOf(els) == annotations && FieldsOf(els) == fields;
        Ok((annotations, fields, [x] + settings))
  }

  /** A child of a field or setting, which must be an annotation. */
  function AnnotationChild(parent: string, el: RawElement): (r: Result<RawAnnotation>)
    ensures r.Ok? <==> el.Annotation?
    ensures r.Ok? ==> r.value == el.rawAnnotation
  {
    if el.Annotation? then Ok(el.rawAnnotation)
    else Err(ElementConstructLogic("unexpected non-annotation element in " + parent + ": " + Name(el)))
  }

  /** A child of the metadata element, which must be a class. */
  function ClassChildOfMetadata(el: RawElement): (r: Result<RawClass>)
    ensures r.Ok? <==> el.Class?
    ensures r.Ok? ==> r.value == el.rawClass
  {
    if el.Class? then Ok(el.rawClass)
    else Err(ElementConstructLogic("unexpected non-class element in metadata: " + Name(el)))
  }

  /** Child `i` is the last metadata child. */
  predicate LastMetadataAt(els: seq<RawElement>, i: int)
  {
    0 <= i < |els| && els[i].Metadata? && forall j :: i < j < |els| ==> !els[j].Metadata?
  }

  /** Child `i` is the last region child. */
  predicate LastRegionAt(els: seq<RawElement>, i: int)
  {
    0 <= i < |els| && els[i].Region? && forall j :: i < j < |els| ==> !els[j].Region?
  }

  /**
   * The loop over the root's children: a metadata or region element replaces
   * the one seen before, anything else stops it.
   */
  function RootChildren(els: seq<RawElement>, metadata: Option<RawMetadata>, region: Option<RawRegion>):
    (r: Result<(Option<RawMetadata>, Option<RawRegion>)>)
    ensures r.Ok? <==> forall i :: 0 <= i < |els| ==> els[i].Metadata? || els[i].Region?
    ensures r.Ok? && (forall i :: 0 <= i < |els| ==> !els[i].Metadata?) ==> r.value.0 == metadata
    ensures r.Ok? && (forall i :: 0 <= i < |els| ==> !els[i].Region?) ==> r.value.1 == region
    ensures r.Ok? && (exists i :: 0 <= i < |els| && els[i].Metadata?) ==>
      exists i :: LastMetadataAt(els, i) && r.value.0 == Some(els[i].rawMetadata)
    ensures r.Ok? && (exists i :: 0 <= i < |els| && els[i].Region?) ==>
      exists i :: LastRegionAt(els, i) && r.value.1 == Some(els[i].rawRegion)
    decreases |els|
  {
    if |els| == 0 then Ok((metadata, region))
    else
      assert forall j :: 1 <= j < |els| ==> els[1..][j - 1] == els[j];
      match els[0]
      case Metadata(m) => RootChildren(els[1..], Some(m), region)
      case Region(g) => RootChildren(els[1..], metadata, Some(g))
      case _ => Err(ElementConstructLogic("unexpected child element " + Name(els[0]) + " in root"))
  }

  /** The root's children, checked: both a metadata and a region element are needed. */
  function RootFromChildren(children: seq<RawElement>, attrs: Attributes): (r: Result<RawRoot>)
    ensures r.Ok? ==> r.value.attributes == attrs
  {
    var (metadata, region) :- RootChildren(children, None, None);
    var m :- if metadata.Some? then Ok(metadata.value)
      else Err(ElementConstructLogic("root element lacks metadata element"));
    var g :- if region.Some? then Ok(region.value)
      else Err(ElementConstructLogic("root element lacks region element"));
    Ok(RawRoot(m, g, attrs))
  }

  /** The kind-specific part of `from_record`, once the children and the kind are known. */
  function Classify(kind: Kind, children: seq<RawElement>, attrs: Attributes): (r: Result<RawElement>)
    ensures r.Ok? ==> KindOfElement(r.value) == kind && AttributesOf(r.value) == attrs
  {
    match kind
    case AnnotationKind => Ok(Annotation(RawAnnotation(attrs)))
    case ClassKind =>
      var (annotations, fields, settings) :- SortClassChildren(children);
      Ok(Class(RawClass(annotations, fields, settings, attrs)))
    case FieldKind =>
      var annotations :- Collect(el => AnnotationChild("field", el), children);
      Ok(Field(RawField(annotations, attrs)))
    case MetadataKind =>
      var classes :- Collect(ClassChildOfMetadata, children);
      Ok(Metadata(RawMetadata(classes, attrs)))
    case RegionKind => Ok(Region(RawRegion(attrs)))
    case RootKind =>
      var root :- RootFromChildren(children, attrs);
      Ok(Root(root))
    case SettingKind =>
      var annotations :- Collect(el => AnnotationChild("setting", el), children);
      Ok(Setting(RawSetting(annotations, attrs)))
  }

  /** Annotation and region elements take their attributes and ignore any children. */
  lemma ClassifyLeaves(children: seq<RawElement>, attrs: Attributes)
    ensures Classify(AnnotationKind, children, attrs) == Ok(Annotation(RawAnnotation(attrs)))
    ensures Classify(RegionKind, children, attrs) == Ok(Region(RawRegion(attrs)))
  {
  }

  /** A class element takes exactly its annotation, field and setting children, sorted by kind in order. */
  lemma ClassifyClass(children: seq<RawElement>, attrs: Attributes)
    ensures Classify(ClassKind, children, attrs).Ok? <==> forall i :: 0 <= i < |children| ==> ClassChild(children[i])
    ensures Classify(ClassKind, children, attrs).Ok? ==>
      Classify(ClassKind, children, attrs) ==
        Ok(Class(RawClass(AnnotationsOf(children), FieldsOf(children), SettingsOf(children), attrs)))
  {
  }

  /** When every element is an annotation, the annotations among them are all of them. */
  lemma {:induction false} AllAnnotations(els: seq<RawElement>, anns: seq<RawAnnotation>)
    requires |anns| == |els|
    requires forall i :: 0 <= i < |els| ==> els[i].Annotation? && els[i].rawAnnotation == anns[i]
    ensures AnnotationsOf(els) == anns
    decreases |els|
  {
    if |els| > 0 {
      assert forall i :: 0 <= i < |els| - 1 ==> els[1..][i] == els[i + 1] && anns[1..][i] == anns[i + 1];
      AllAnnotations(els[1..], anns[1..]);
      assert anns == [anns[0]] + anns[1..];
    }
  }

  /** A field or setting element takes only annotation children, all of them, in order. */
  lemma ClassifyAnnotated(kind: Kind, children: seq<RawElement>, attrs: Attributes)
    requires kind == FieldKind || kind == SettingKind
    ensures Classify(kind, children, attrs).Ok? <==> forall i :: 0 <= i < |children| ==> children[i].Annotation?
    ensures kind == FieldKind && Classify(kind, children, attrs).Ok? ==>
      Classify(kind, children, attrs) == Ok(Field(RawField(AnnotationsOf(children), attrs)))
    ensures kind == SettingKind && Classify(kind, children, attrs).Ok? ==>
      Classify(kind, children, attrs) == Ok(Setting(RawSetting(AnnotationsOf(children), attrs)))
  {
    var parent := if kind == FieldKind then "field" else "setting";
    var f := el => AnnotationChild(parent, el);
    assert forall i :: 0 <= i < |children| ==> f(children[i]) == AnnotationChild(parent, children[i]);
    var r := Collect(f, children);
    if r.Ok? {
      AllAnnotations(children, r.value);
    }
  }

  /** The metadata element takes only class children, all of them, in order. */
  lemma ClassifyMetadata(children: seq<RawElement>, attrs: Attributes)
    ensures Classify(MetadataKind, children, attrs).Ok? <==> forall i :: 0 <= i < |children| ==> children[i].Class?
    ensures Classify(MetadataKind, children, attrs).Ok? ==>
      var classes := Classify(MetadataKind, children, attrs).value.rawMetadata.classes;
      |classes| == |children| && forall i :: 0 <= i < |children| ==> children[i] == Class(classes[i])
  {
  }

  /** The root takes metadata and region children only, needs one of each, and keeps the last of each. */
  lemma ClassifyRoot(children: seq<RawElement>, attrs: Attributes)
    ensures Classify(RootKind, children, attrs).Ok? <==>
      (forall i :: 0 <= i < |children| ==> children[i].Metadata? || children[i].Region?) &&
      (exists i :: 0 <= i < |children| && children[i].Metadata?) &&
      (exists i :: 0 <= i < |children| && children[i].Region?)
    ensures Classify(RootKind, children, attrs).Ok? ==>
      var root := Classify(RootKind, children, attrs).value.rawRoot;
      (exists i :: LastMetadataAt(children, i) && children[i] == Metadata(root.metadata)) &&
      (exists i :: LastRegionAt(children, i) && children[i] == Region(root.region))
  {
  }

  /**
   * `RawElement::from_record`: the children are converted first (the first
   * failure wins), then the element's own name is looked up (`u32 as usize`)
   * and must be inline text naming one of the seven kinds.
   */
  function FromRecord(st: Records, rec: MetadataRecords.ElementRecord): (r: Result<RawElement>)
    decreases rec
  {
    match FromRecordList(st, rec.children)
    case Err(e) => Err(e)
    case Ok(children) =>
      match StringTable.Lookup(st, rec.nameIndex)
      case Err(e) => Err(e)
      case Ok(v) =>
        if !v.Text? then Err(ElementConstructLogic(NO_INLINE_DATA + "; did you find a logic bug?"))
        else
          match KindOf(v.text)
          case None => Err(ElementNameUnknown(v.text))
          case Some(kind) => Classify(kind, children, rec.attributes)
  }

  function FromRecordList(st: Records, recs: seq<MetadataRecords.ElementRecord>): (r: Result<seq<RawElement>>)
    ensures r.Ok? ==> |r.value| == |recs|
    decreases recs
  {
    if |recs| == 0 then Ok([])
    else
      match FromRecord(st, recs[0])
      case Err(e) => Err(e)
      case Ok(x) =>
        match FromRecordList(st, recs[1..])
        case Err(e) => Err(e)
        case Ok(xs) => Ok([x] + xs)
  }

  /**
   * A converted element is of the kind its record names, keeps the record's
   * attributes, and its name resolved to inline text; a failing child fails
   * the element with the child's error.
   */
  lemma FromRecordNamed(st: Records, rec: MetadataRecords.ElementRecord)
    ensures var r := FromRecord(st, rec);
      r.Ok? ==> (StringTable.Lookup(st, rec.nameIndex) == Ok(StringTable.Text(Name(r.value))) &&
        AttributesOf(r.value) == rec.attributes)
    ensures FromRecordList(st, rec.children).Err? ==> FromRecord(st, rec) == Err(FromRecordList(st, rec.children).error)
  {
  }

  /** A name that selects no kind is `ElementNameUnknown`, once the children convert. */
  lemma FromRecordUnknownName(st: Records, rec: MetadataRecords.ElementRecord, name: string)
    requires FromRecordList(st, rec.children).Ok?
    requires StringTable.Lookup(st, rec.nameIndex) == Ok(StringTable.Text(name))
    requires forall k: Kind :: KindName(k) != name
    ensures FromRecord(st, rec) == Err(ElementNameUnknown(name))
  {
  }

  /** Converting a list of records converts each of them, in order, or fails with the first failure. */
  lemma {:induction false} FromRecordListEach(st: Records, recs: seq<MetadataRecords.ElementRecord>)
    ensures FromRecordList(st, recs) == Collect(rec => FromRecord(st, rec), recs)
    decreases |recs|
  {
    if |recs| > 0 {
      FromRecordListEach(st, recs[1..]);
    }
  }

  // Fully typed elements

  datatype AnnotationElement = AnnotationElement(typeId: I64, values: Pairs)

  datatype FieldElement = FieldElement(
    annotations: seq<AnnotationElement>,
    name: string,
    typeId: I64,
    dimension: Option<I64>,
    constantPool: Option<string>)

  datatype SettingElement = SettingElement(
    annotations: seq<AnnotationElement>,
    name: string,
    typeId: I64,
    defaultValue: string)

  datatype ClassElement = ClassElement(
    annotations: seq<AnnotationElement>,
    fields: seq<FieldElement>,
    settings: seq<SettingElement>,
    name: string,
    superType: Option<string>,
    simpleType: Option<string>,
    id: I64)

  datatype MetadataElement = MetadataElement(classes: seq<ClassElement>)
  datatype RegionElement = RegionElement(locale: string, gmtOffset: string)
  datatype RootElement = RootElement(metadata: MetadataElement, region: RegionElement)

  datatype Element =
    | AnnotationEl(annotation: AnnotationElement)
    | ClassEl(classElement: ClassElement)
    | FieldEl(field: FieldElement)
    | MetadataEl(metadata: MetadataElement)
    | RegionEl(region: RegionElement)
    | RootEl(root: RootElement)
    | SettingEl(setting: SettingElement)

  const NO_TYPE_ID := "annotation lacks type id attribute"

  /** `v` is the last value of `key` and reads as the integer `x`. */
  ghost predicate IsLastId(pairs: Pairs, key: string, x: I64)
  {
    exists i :: LastAt(pairs, key, i) && Text.ParseI64(pairs[i].1) == Some(x)
  }

  /**
   * `AnnotationElement::from_raw` with the capacity computed safely: every
   * pair is resolved, "class" (last one wins) is the type id and every other
   * pair is kept as a value, in order.
   */
  function AnnotationFromRaw(st: Records, a: RawAnnotation): (r: Result<AnnotationElement>)
    ensures |a.attributes| == 0 ==> r == Err(ElementConstructLogic(NO_TYPE_ID))
    ensures r.Err? ==> !r.error.Panic?
  {
    ResolvedKeysAccepted(st, AnyKey, a.attributes);
    var pairs :- ResolveAttributes(st, AnyKey, a.attributes);
    var typeText :- Required(LastValue(pairs, "class"), NO_TYPE_ID);
    var typeId :- ParseId(typeText, "error parsing annotation class id to int");
    Ok(AnnotationElement(typeId, Without(pairs, "class")))
  }

  /**
   * A converted annotation's type id is its last "class" attribute read as
   * an integer, and its values are exactly the other attributes.
   */
  lemma AnnotationAttributes(st: Records, a: RawAnnotation)
    requires AnnotationFromRaw(st, a).Ok?
    ensures ResolveAttributes(st, AnyKey, a.attributes).Ok?
    ensures var pairs := ResolveAttributes(st, AnyKey, a.attributes).value;
      var e := AnnotationFromRaw(st, a).value;
      IsLastId(pairs, "class", e.typeId) &&
      (forall p :: p in e.values <==> p in pairs && p.0 != "class") &&
      |e.values| < |a.attributes|
  {
    ResolvedKeysAccepted(st, AnyKey, a.attributes);
    var pairs := ResolveAttributes(st, AnyKey, a.attributes).value;
    LastValueIsLast(pairs, "class");
  }

  /**
   * `AnnotationElement::from_raw` as written: `attributes.len() - 1` is
   * computed before the loop, so an annotation without attributes panics
   * (an overflow in a debug build, a capacity overflow in a release build)
   * instead of reporting the missing type id.
   */
  function AnnotationFromRawAsWritten(st: Records, a: RawAnnotation): (r: Result<AnnotationElement>)
    ensures |a.attributes| > 0 ==> r == AnnotationFromRaw(st, a)
    ensures r.Err? && r.error.Panic? <==> |a.attributes| == 0
  {
    if |a.attributes| == 0 then Err(Panic("attempt to subtract with overflow"))
    else AnnotationFromRaw(st, a)
  }

  /**
   * Converting a list of annotations as written panics at `i`: the `i`th
   * annotation has no attributes and every one before it converts.
   */
  predicate PanicsAt(st: Records, anns: seq<RawAnnotation>, i: int)
  {
    0 <= i < |anns| && |anns[i].attributes| == 0 &&
    forall j :: 0 <= j < i ==> AnnotationFromRaw(st, anns[j]).Ok?
  }

  /** Annotations that convert as written are non-empty and convert as the corrected conversion does. */
  lemma AnnotationsOkAsWritten(st: Records, anns: seq<RawAnnotation>, r: seq<AnnotationElement>)
    requires |r| == |anns|
    requires forall i :: 0 <= i < |anns| ==> AnnotationFromRawAsWritten(st, anns[i]) == Ok(r[i])
    ensures forall i :: 0 <= i < |anns| ==> |anns[i].attributes| > 0 && AnnotationFromRaw(st, anns[i]) == Ok(r[i])
  {
  }

  /** The first failing annotation, when it is the first empty one, fails with a panic. */
  lemma FirstFailurePanics(st: Records, anns: seq<RawAnnotation>, k: int, e: Error)
    requires 0 <= k < |anns| && AnnotationFromRawAsWritten(st, anns[k]) == Err(e)
    requires forall j :: 0 <= j < k ==> AnnotationFromRawAsWritten(st, anns[j]).Ok?
    ensures e.Panic? <==> exists i :: PanicsAt(st, anns, i)
  {
    if e.Panic? {
      assert PanicsAt(st, anns, k);
    }
    if i :| PanicsAt(st, anns, i) {
      if k < i {
        assert AnnotationFromRaw(st, anns[k]).Ok?;
      } else if i < k {
        assert AnnotationFromRawAsWritten(st, anns[i]).Ok?;
      }
    }
  }

  /** When every annotation converts as written, none panics. */
  lemma NoPanicWhenAllConvert(st: Records, anns: seq<RawAnnotation>)
    requires forall i :: 0 <= i < |anns| ==> AnnotationFromRawAsWritten(st, anns[i]).Ok?
    ensures forall i :: !PanicsAt(st, anns, i)
  {
  }

  /**
   * The annotations of a field, setting or class, converted as written:
   * they convert only when none is empty, each as the corrected conversion
   * does, and the result is a panic exactly when an empty annotation comes
   * before any other failing one.
   */
  function ConvertAnnotations(st: Records, anns: seq<RawAnnotation>): (r: Result<seq<AnnotationElement>>)
    ensures r.Ok? ==> |r.value| == |anns| && forall i :: 0 <= i < |anns| ==>
      |anns[i].attributes| > 0 && AnnotationFromRaw(st, anns[i]) == Ok(r.value[i])
    ensures r.Err? && r.error.Panic? <==> exists i :: PanicsAt(st, anns, i)
  {
    var r := Collect(a => AnnotationFromRawAsWritten(st, a), anns);
    if r.Ok? then
      AnnotationsOkAsWritten(st, anns, r.value);
      NoPanicWhenAllConvert(st, anns);
      r
    else
      var k :| 0 <= k < |anns| && AnnotationFromRawAsWritten(st, anns[k]) == Err(r.error) &&
        forall j :: 0 <= j < k ==> AnnotationFromRawAsWritten(st, anns[j]).Ok?;
      FirstFailurePanics(st, anns, k, r.error);
      r
  }

  /** The empty annotation: the code as written panics where the missing type id should be reported. */
  lemma EmptyAnnotationPanics(st: Records)
    ensures AnnotationFromRawAsWritten(st, RawAnnotation([])).Err?
    ensures AnnotationFromRawAsWritten(st, RawAnnotation([])).error.Panic?
    ensures AnnotationFromRaw(st, RawAnnotation([])) == Err(ElementConstructLogic(NO_TYPE_ID))
  {
  }

  /** An optional integer attribute. */
  function OptionalId(v: Option<string>, message: string): (r: Result<Option<I64>>)
    ensures v.None? ==> r == Ok(None)
    ensures v.Some? ==> (r.Ok? <==> Text.ParseI64(v.value).Some?)
    ensures v.Some? && r.Ok? ==> r.value == Some(Text.ParseI64(v.value).value)
  {
    match v
    case None => Ok(None)
    case Some(text) =>
      var x :- ParseId(text, message);
      Ok(Some(x))
  }

  const FIELD_KEYS := OnlyKeys({"name", "class", "dimension", "constantPool"}, "field")

  /** The attribute half of `FieldElement::from_raw`, on the resolved pairs. */
  function FieldFromPairs(annotations: seq<AnnotationElement>, pairs: Pairs): (r: Result<FieldElement>)
    ensures r.Ok? ==> r.value.annotations == annotations
    ensures NoKey(pairs, "name") ==> r == Err(ElementConstructLogic("field lacks name attribute"))
  {
    LastValueIsLast(pairs, "name");
    var name :- Required(LastValue(pairs, "name"), "field lacks name attribute");
    var typeText :- Required(LastValue(pairs, "class"), "field lacks class attribute");
    var typeId :- ParseId(typeText, "failed to parse field element class id to integer");
    var dimension :- OptionalId(LastValue(pairs, "dimension"), "field element dimension could not be parsed to integer");
    Ok(FieldElement(annotations, name, typeId, dimension, LastValue(pairs, "constantPool")))
  }

  /**
   * A field takes its last name and class, and its optional dimension and
   * constant pool are absent exactly when no pair names them.
   */
  lemma FieldPairs(annotations: seq<AnnotationElement>, pairs: Pairs)
    requires FieldFromPairs(annotations, pairs).Ok?
    ensures var e := FieldFromPairs(annotations, pairs).value;
      IsLastValue(pairs, "name", e.name) && IsLastId(pairs, "class", e.typeId) &&
      (e.dimension.None? <==> NoKey(pairs, "dimension")) &&
      (e.dimension.Some? ==> IsLastId(pairs, "dimension", e.dimension.value)) &&
      (e.constantPool.None? <==> NoKey(pairs, "constantPool")) &&
      (e.constantPool.Some? ==> IsLastValue(pairs, "constantPool", e.constantPool.value))
  {
    LastValueIsLast(pairs, "name");
    LastValueIsLast(pairs, "class");
    LastValueIsLast(pairs, "dimension");
    LastValueIsLast(pairs, "constantPool");
  }

  /**
   * `FieldElement::from_raw`: annotations first, then the attributes. An
   * annotation without attributes panics, as it does in
   * `AnnotationElement::from_raw`.
   */
  function FieldFromRaw(st: Records, f: RawField): (r: Result<FieldElement>)
    ensures r.Ok? ==> |r.value.annotations| == |f.annotations|
    ensures r.Ok? ==> forall i :: 0 <= i < |f.annotations| ==>
      |f.annotations[i].attributes| > 0 && AnnotationFromRaw(st, f.annotations[i]) == Ok(r.value.annotations[i])
    ensures (exists i :: PanicsAt(st, f.annotations, i)) ==> r.Err? && r.error.Panic?
    ensures r.Ok? ==> (ResolveAttributes(st, FIELD_KEYS, f.attributes).Ok? &&
      FieldFromPairs(r.value.annotations, ResolveAttributes(st, FIELD_KEYS, f.attributes).value) == r)
  {
    var annotations :- ConvertAnnotations(st, f.annotations);
    var pairs :- ResolveAttributes(st, FIELD_KEYS, f.attributes);
    FieldFromPairs(annotations, pairs)
  }

  /** A converted field has only known attribute keys. */
  lemma FieldKeys(st: Records, f: RawField)
    requires FieldFromRaw(st, f).Ok?
    ensures var pairs := ResolveAttributes(st, FIELD_KEYS, f.attributes).value;
      forall i :: 0 <= i < |pairs| ==> pairs[i].0 in FIELD_KEYS.keys
  {
    ResolvedKeysAccepted(st, FIELD_KEYS, f.attributes);
  }

  /** `FieldElement::is_array_type`: `dimension.unwrap_or(0) > 0`. */
  predicate IsArrayType(f: FieldElement)
  {
    (if f.dimension.Some? then f.dimension.value else 0) > 0
  }

  /** A converted field is an array exactly when its last dimension attribute is a positive integer. */
  lemma ArrayTypeFromDimension(annotations: seq<AnnotationElement>, pairs: Pairs)
    requires FieldFromPairs(annotations, pairs).Ok?
    ensures IsArrayType(FieldFromPairs(annotations, pairs).value) <==>
      exists x: I64 :: IsLastId(pairs, "dimension", x) && x > 0
  {
    var e := FieldFromPairs(annotations, pairs).value;
    FieldPairs(annotations, pairs);
    forall x: I64 | IsLastId(pairs, "dimension", x)
      ensures e.dimension == Some(x)
    {
      var i :| LastAt(pairs, "dimension", i) && Text.ParseI64(pairs[i].1) == Some(x);
      if e.dimension.Some? {
        var j :| LastAt(pairs, "dimension", j) && Text.ParseI64(pairs[j].1) == Some(e.dimension.value);
        assert i == j;
      }
    }
  }

  const SETTING_KEYS := OnlyKeys({"name", "class", "defaultValue"}, "setting")

  /** The attribute half of `SettingsElement::from_raw`: name, class and default value, all mandatory. */
  function SettingFromPairs(annotations: seq<AnnotationElement>, pairs: Pairs): (r: Result<SettingElement>)
    ensures r.Ok? ==> r.value.annotations == annotations
    ensures NoKey(pairs, "name") ==> r == Err(ElementConstructLogic("setting lacks name attribute"))
  {
    LastValueIsLast(pairs, "name");
    var name :- Required(LastValue(pairs, "name"), "setting lacks name attribute");
    var typeText :- Required(LastValue(pairs, "class"), "setting lacks class attribute");
    var typeId :- ParseId(typeText, "setting element failed to parse class id to integer");
    var defaultValue :- Required(LastValue(pairs, "defaultValue"), "setting lacks defaultValue attribute");
    Ok(SettingElement(annotations, name, typeId, defaultValue))
  }

  /** A setting takes the last name, class and default value. */
  lemma SettingPairs(annotations: seq<AnnotationElement>, pairs: Pairs)
    requires SettingFromPairs(annotations, pairs).Ok?
    ensures var e := SettingFromPairs(annotations, pairs).value;
      IsLastValue(pairs, "name", e.name) && IsLastId(pairs, "class", e.typeId) &&
      IsLastValue(pairs, "defaultValue", e.defaultValue)
  {
    LastValueIsLast(pairs, "name");
    LastValueIsLast(pairs, "class");
    LastValueIsLast(pairs, "defaultValue");
  }

  /** A setting lacking any of its three attributes is refused. */
  lemma SettingNeedsAll(annotations: seq<AnnotationElement>, pairs: Pairs)
    requires NoKey(pairs, "name") || NoKey(pairs, "class") || NoKey(pairs, "defaultValue")
    ensures SettingFromPairs(annotations, pairs).Err?
  {
    LastValueIsLast(pairs, "class");
    LastValueIsLast(pairs, "defaultValue");
  }

  /** `SettingsElement::from_raw`: annotations, then the attributes; an empty annotation panics. */
  function SettingFromRaw(st: Records, s: RawSetting): (r: Result<SettingElement>)
    ensures r.Ok? ==> |r.value.annotations| == |s.annotations|
    ensures r.Ok? ==> forall i :: 0 <= i < |s.annotations| ==>
      |s.annotations[i].attributes| > 0 && AnnotationFromRaw(st, s.annotations[i]) == Ok(r.value.annotations[i])
    ensures (exists i :: PanicsAt(st, s.annotations, i)) ==> r.Err? && r.error.Panic?
    ensures r.Ok? ==> (ResolveAttributes(st, SETTING_KEYS, s.attributes).Ok? &&
      SettingFromPairs(r.value.annotations, ResolveAttributes(st, SETTING_KEYS, s.attributes).value) == r)
  {
    var annotations :- ConvertAnnotations(st, s.annotations);
    var pairs :- ResolveAttributes(st, SETTING_KEYS, s.attributes);
    SettingFromPairs(annotations, pairs)
  }

  const CLASS_KEYS := OnlyKeys({"name", "superType", "simpleType", "id"}, "class")

  /** The attribute half of `ClassElement::from_raw`. */
  function ClassFromPairs(
    annotations: seq<AnnotationElement>,
    fields: seq<FieldElement>,
    settings: seq<SettingElement>,
    pairs: Pairs): (r: Result<ClassElement>)
    ensures r.Ok? ==> r.value.annotations == annotations && r.value.fields == fields && r.value.settings == settings
    ensures NoKey(pairs, "name") ==> r == Err(ElementConstructLogic("class lacks name attribute"))
  {
    LastValueIsLast(pairs, "name");
    var name :- Required(LastValue(pairs, "name"), "class lacks name attribute");
    var idText :- Required(LastValue(pairs, "id"), "class lacks id attribute");
    var id :- ParseId(idText, "class element id fails to parse as integer");
    Ok(ClassElement(annotations, fields, settings, name, LastValue(pairs, "superType"), LastValue(pairs, "simpleType"), id))
  }

  /** A class takes the last name and id; its super and simple types are absent exactly when no pair names them. */
  lemma ClassPairs(annotations: seq<AnnotationElement>, fields: seq<FieldElement>, settings: seq<SettingElement>, pairs: Pairs)
    requires ClassFromPairs(annotations, fields, settings, pairs).Ok?
    ensures var e := ClassFromPairs(annotations, fields, settings, pairs).value;
      IsLastValue(pairs, "name", e.name) && IsLastId(pairs, "id", e.id) &&
      (e.superType.None? <==> NoKey(pairs, "superType")) &&
      (e.superType.Some? ==> IsLastValue(pairs, "superType", e.superType.value)) &&
      (e.simpleType.None? <==> NoKey(pairs, "simpleType"))
  {
    LastValueIsLast(pairs, "name");
    LastValueIsLast(pairs, "id");
    LastValueIsLast(pairs, "superType");
    LastValueIsLast(pairs, "simpleType");
  }

  /** `ClassElement::from_raw`: annotations, fields and settings, then the attributes; an empty annotation panics. */
  function ClassFromRaw(st: Records, c: RawClass): (r: Result<ClassElement>)
    ensures r.Ok? ==> |r.value.annotations| == |c.annotations| && |r.value.settings| == |c.settings|
    ensures r.Ok? ==> forall i :: 0 <= i < |c.annotations| ==>
      |c.annotations[i].attributes| > 0 && AnnotationFromRaw(st, c.annotations[i]) == Ok(r.value.annotations[i])
    ensures (exists i :: PanicsAt(st, c.annotations, i)) ==> r.Err? && r.error.Panic?
    ensures r.Ok? ==> (|r.value.fields| == |c.fields| &&
      forall i :: 0 <= i < |c.fields| ==> FieldFromRaw(st, c.fields[i]) == Ok(r.value.fields[i]))
    ensures r.Ok? ==> ResolveAttributes(st, CLASS_KEYS, c.attributes).Ok?
  {
    var annotations :- ConvertAnnotations(st, c.annotations);
    var fields :- Collect(f => FieldFromRaw(st, f), c.fields);
    var settings :- Collect(s => SettingFromRaw(st, s), c.settings);
    var pairs :- ResolveAttributes(st, CLASS_KEYS, c.attributes);
    ClassFromPairs(annotations, fields, settings, pairs)
  }

  /** `flat_map` of an annotation list over a sequence, in order. */
  function FlatAnnotations<T>(xs: seq<T>, f: T -> seq<AnnotationElement>): seq<AnnotationElement>
    decreases |xs|
  {
    if |xs| == 0 then [] else f(xs[0]) + FlatAnnotations(xs[1..], f)
  }

  lemma {:induction false} FlatAnnotationsMember<T>(xs: seq<T>, f: T -> seq<AnnotationElement>, a: AnnotationElement)
    ensures a in FlatAnnotations(xs, f) <==> exists i :: 0 <= i < |xs| && a in f(xs[i])
    decreases |xs|
  {
    if |xs| > 0 {
      FlatAnnotationsMember(xs[1..], f, a);
      assert forall i :: 1 <= i < |xs| ==> xs[1..][i - 1] == xs[i];
      if a in FlatAnnotations(xs[1..], f) {
        var i :| 0 <= i < |xs[1..]| && a in f(xs[1..][i]);
        assert a in f(xs[i + 1]);
      }
    }
  }

  /**
   * `all_annotations`: the class's own annotations, then those of each
   * field, then those of each setting.
   */
  function AllAnnotationsOf(c: ClassElement): (r: seq<AnnotationElement>)
    ensures |c.annotations| <= |r| && r[..|c.annotations|] == c.annotations
  {
    var r := c.annotations + FlatAnnotations(c.fields, (f: FieldElement) => f.annotations)
      + FlatAnnotations(c.settings, (s: SettingElement) => s.annotations);
    assert r[..|c.annotations|] == c.annotations;
    r
  }

  /** An annotation is listed exactly when the class, one of its fields or one of its settings carries it. */
  lemma AllAnnotationsMember(c: ClassElement, a: AnnotationElement)
    ensures a in AllAnnotationsOf(c) <==>
      a in c.annotations ||
      (exists i :: 0 <= i < |c.fields| && a in c.fields[i].annotations) ||
      (exists i :: 0 <= i < |c.settings| && a in c.settings[i].annotations)
  {
    FlatAnnotationsMember(c.fields, (f: FieldElement) => f.annotations, a);
    FlatAnnotationsMember(c.settings, (s: SettingElement) => s.annotations, a);
  }

  /** `MetadataElement::from_raw`: the classes, then no attributes are allowed. */
  function MetadataFromRaw(st: Records, m: RawMetadata): (r: Result<MetadataElement>)
    ensures r.Ok? ==> |m.attributes| == 0 && |r.value.classes| == |m.classes|
    ensures r.Ok? ==> forall i :: 0 <= i < |m.classes| ==> ClassFromRaw(st, m.classes[i]) == Ok(r.value.classes[i])
    ensures (forall i :: 0 <= i < |m.classes| ==> ClassFromRaw(st, m.classes[i]).Ok?) && |m.attributes| > 0 ==>
      r == Err(ElementConstructLogic("metadata has attributes unexpectedly"))
  {
    var classes :- Collect(c => ClassFromRaw(st, c), m.classes);
    if |m.attributes| > 0 then Err(ElementConstructLogic("metadata has attributes unexpectedly"))
    else Ok(MetadataElement(classes))
  }

  const REGION_KEYS := OnlyKeys({"locale", "gmtOffset"}, "region")

  /** The attribute half of `RegionElement::from_raw`: locale and GMT offset, both mandatory. */
  function RegionFromPairs(pairs: Pairs): (r: Result<RegionElement>)
    ensures r.Ok? <==> !NoKey(pairs, "locale") && !NoKey(pairs, "gmtOffset")
  {
    LastValueIsLast(pairs, "locale");
    LastValueIsLast(pairs, "gmtOffset");
    var locale :- Required(LastValue(pairs, "locale"), "region lacks locale attribute");
    var gmtOffset :- Required(LastValue(pairs, "gmtOffset"), "region lacks gmtOffset attribute");
    Ok(RegionElement(locale, gmtOffset))
  }

  /** A region takes the last locale and the last GMT offset. */
  lemma RegionPairs(pairs: Pairs)
    requires RegionFromPairs(pairs).Ok?
    ensures var e := RegionFromPairs(pairs).value;
      IsLastValue(pairs, "locale", e.locale) && IsLastValue(pairs, "gmtOffset", e.gmtOffset)
  {
    LastValueIsLast(pairs, "locale");
    LastValueIsLast(pairs, "gmtOffset");
  }

  /** `RegionElement::from_raw`. */
  function RegionFromRaw(st: Records, g: RawRegion): (r: Result<RegionElement>)
    ensures r.Ok? ==> (ResolveAttributes(st, REGION_KEYS, g.attributes).Ok? &&
      RegionFromPairs(ResolveAttributes(st, REGION_KEYS, g.attributes).value) == r)
  {
    var pairs :- ResolveAttributes(st, REGION_KEYS, g.attributes);
    RegionFromPairs(pairs)
  }

  /** `RootElement::from_raw`: metadata, region, then no attributes are allowed. */
  function RootFromRaw(st: Records, root: RawRoot): (r: Result<RootElement>)
    ensures r.Ok? ==> |root.attributes| == 0
    ensures r.Ok? ==> (MetadataFromRaw(st, root.metadata) == Ok(r.value.metadata) &&
      RegionFromRaw(st, root.region) == Ok(r.value.region))
    ensures MetadataFromRaw(st, root.metadata).Err? ==> r == Err(MetadataFromRaw(st, root.metadata).error)
  {
    var metadata :- MetadataFromRaw(st, root.metadata);
    var region :- RegionFromRaw(st, root.region);
    if |root.attributes| > 0 then Err(ElementConstructLogic("root element has attributes unexpectedly"))
    else Ok(RootElement(metadata, region))
  }

  /** `Element::from_raw`: each kind converted by its own `from_raw`, keeping the kind. */
  function ElementFromRaw(st: Records, el: RawElement): (r: Result<Element>)
    ensures r.Ok? ==> (r.value.RootEl? <==> el.Root?)
    ensures el.Root? ==> (r.Ok? <==> RootFromRaw(st, el.rawRoot).Ok?)
    ensures el.Root? && r.Ok? ==> r.value.root == RootFromRaw(st, el.rawRoot).value
    ensures el.Annotation? ==> (r.Err? && r.error.Panic? <==> |el.rawAnnotation.attributes| == 0)
    ensures el.Annotation? && r.Ok? ==>
      AnnotationFromRaw(st, el.rawAnnotation).Ok? && r.value == AnnotationEl(AnnotationFromRaw(st, el.rawAnnotation).value)
  {
    match el
    case Annotation(x) => var a :- AnnotationFromRawAsWritten(st, x); Ok(AnnotationEl(a))
    case Class(x) => var c :- ClassFromRaw(st, x); Ok(ClassEl(c))
    case Field(x) => var f :- FieldFromRaw(st, x); Ok(FieldEl(f))
    case Metadata(x) => var m :- MetadataFromRaw(st, x); Ok(MetadataEl(m))
    case Region(x) => var g :- RegionFromRaw(st, x); Ok(RegionEl(g))
    case Root(x) => var t :- RootFromRaw(st, x); Ok(RootEl(t))
    case Setting(x) => var s :- SettingFromRaw(st, x); Ok(SettingEl(s))
  }

  // The class map

  /** The ids of `classes`. */
  function Ids(classes: seq<ClassElement>): set<I64>
  {
    set i | 0 <= i < |classes| :: classes[i].id
  }

  /** `class_map`: each class inserted under its id, in order, so a later duplicate id overwrites. */
  function ClassMap(classes: seq<ClassElement>): (m: map<I64, ClassElement>)
    ensures m.Keys == Ids(classes)
    decreases |classes|
  {
    if |classes| == 0 then map[]
    else
      var last := classes[|classes| - 1];
      var m := ClassMap(classes[..|classes| - 1]);
      assert Ids(classes) == Ids(classes[..|classes| - 1]) + {last.id} by {
        assert forall i :: 0 <= i < |classes| - 1 ==> classes[..|classes| - 1][i] == classes[i];
      }
      m[last.id := last]
  }

  /** Under each id the map holds the last class with that id. */
  lemma {:induction false} ClassMapLastWins(classes: seq<ClassElement>, i: nat)
    requires i < |classes|
    requires forall j :: i < j < |classes| ==> classes[j].id != classes[i].id
    ensures classes[i].id in ClassMap(classes) && ClassMap(classes)[classes[i].id] == classes[i]
    decreases |classes|
  {
    if i < |classes| - 1 {
      var prefix := classes[..|classes| - 1];
      assert prefix[i] == classes[i];
      ClassMapLastWins(prefix, i);
    }
  }

  /** A chunk's decoded metadata: the class map is built from the root's classes. */
  datatype ChunkMetadata = ChunkMetadata(
    header: MetadataRecords.MetadataHeader,
    stringTable: Records,
    root: RootElement,
    classMap: map<I64, ClassElement>)

  /** `Metadata::from_records`: type the root record, require it to be the root, and map the classes by id. */
  function FromMetadataRecords(m: MetadataRecords.MetadataRecords): (r: Result<ChunkMetadata>)
    ensures r.Ok? ==> FromRecord(m.stringRecords, m.root).Ok? && FromRecord(m.stringRecords, m.root).value.Root?
    ensures r.Ok? ==> r.value.classMap.Keys == Ids(r.value.root.metadata.classes)
    ensures r.Ok? ==> r.value.header == m.header && r.value.stringTable == m.stringRecords
    ensures FromRecord(m.stringRecords, m.root).Err? ==> r == Err(FromRecord(m.stringRecords, m.root).error)
  {
    var raw :- FromRecord(m.stringRecords, m.root);
    var el :- ElementFromRaw(m.stringRecords, raw);
    if el.RootEl? then
      Ok(ChunkMetadata(m.header, m.stringRecords, el.root, ClassMap(el.root.metadata.classes)))
    else Err(ElementConstructLogic("metadata root element has wrong type"))
  }

  /** `Metadata::parse`: the metadata records, then their conversion; the rest of the input is returned. */
  function ParseMetadata(s: seq<Byte>): (r: Result<(seq<Byte>, ChunkMetadata)>)
    ensures MetadataRecords.ParseMetadataRecords(s).PErr? ==>
      r == Err(FromNom(MetadataRecords.ParseMetadataRecords(s).err))
    ensures r.Ok? ==> (MetadataRecords.ParseMetadataRecords(s).POk? &&
      r.value.0 == MetadataRecords.ParseMetadataRecords(s).rest &&
      FromMetadataRecords(MetadataRecords.ParseMetadataRecords(s).value) == Ok(r.value.1))
  {
    var (records, rest) :- Lift(MetadataRecords.ParseMetadataRecords(s));
    var metadata :- FromMetadataRecords(records);
    Ok((rest, metadata))
  }
}
