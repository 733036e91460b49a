/**
 * The decisions of the `metadata.xml` to Rust code generator: which Rust
 * type a JFR type name becomes, how a field's type is wrapped, how a field
 * is named, and the order of the items of the generated file. The token
 * streams themselves are modelled as a list of items; snake-casing is a
 * parameter.
 */
module RustCodegen {
  import opened Errors
  import MetadataXml
  import Sorting

  /** A Rust type name and whether a value of it may be absent. */
  datatype Mapped = Mapped(rustName: string, nullable: bool)

  /** The `javaType`s the generator knows. */
  const JavaTypes: set<string> :=
    {"byte", "short", "int", "long", "float", "double", "boolean", "char", "java.lang.String"}

  /** The integral `javaType`s and the width of their Rust counterparts. */
  const IntegralBits: map<string, string> := map["byte" := "8", "short" := "16", "int" := "32", "long" := "64"]

  /** The `match (java_type, unsigned)` of `type_to_rust_type`. */
  function JavaTypeMap(javaType: string, unsigned: bool): (r: Option<Mapped>)
    ensures r.Some? <==> javaType in JavaTypes
    ensures r.Some? ==> (r.value.nullable <==> javaType == "java.lang.String")
  {
    if javaType == "byte" then Some(Mapped(if unsigned then "u8" else "i8", false))
    else if javaType == "short" then Some(Mapped(if unsigned then "u16" else "i16", false))
    else if javaType == "int" then Some(Mapped(if unsigned then "u32" else "i32", false))
    else if javaType == "long" then Some(Mapped(if unsigned then "u64" else "i64", false))
    else if javaType == "float" then Some(Mapped("f32", false))
    else if javaType == "double" then Some(Mapped("f64", false))
    else if javaType == "boolean" then Some(Mapped("bool", false))
    else if javaType == "char" then Some(Mapped("char", false))
    else if javaType == "java.lang.String" then Some(Mapped("String", true))
    else None
  }

  /** An integral type maps to `i` or `u`, by `unsigned`, followed by its width. */
  lemma IntegralNaming(javaType: string, unsigned: bool)
    requires javaType in IntegralBits
    ensures JavaTypeMap(javaType, unsigned) ==
      Some(Mapped((if unsigned then "u" else "i") + IntegralBits[javaType], false))
  {
    assert "u" + "8" == "u8" && "i" + "8" == "i8";
    assert "u" + "16" == "u16" && "i" + "16" == "i16";
    assert "u" + "32" == "u32" && "i" + "32" == "i32";
    assert "u" + "64" == "u64" && "i" + "64" == "i64";
  }

  /** `unsigned` only matters for the four integral types. */
  lemma UnsignedIgnored(javaType: string, unsigned: bool)
    requires javaType !in IntegralBits
    ensures JavaTypeMap(javaType, unsigned) == JavaTypeMap(javaType, !unsigned)
  {
  }

  /**
   * `type_to_rust_type`: a `Type` of the name is a struct of that name and
   * is nullable; otherwise an `XmlType` of the name maps through its
   * `javaType`, with `unsigned` absent read as false.
   */
  function TypeToRustType(m: MetadataXml.Metadata, name: string): Option<Mapped>
  {
    match MetadataXml.FindType(m, name)
    case Some(t) => Some(Mapped(t.name, true))
    case None =>
      match MetadataXml.FindXmlType(m, name)
      case None => None
      case Some(x) =>
        match x.javaType
        case None => None
        case Some(j) => JavaTypeMap(j, UnwrapOrFalse(x.unsigned))
  }

  /**
   * A name that some `Type` carries is that struct, nullable, whatever
   * `XmlType`s share the name; a name no `Type` or `XmlType` carries has no
   * Rust type; otherwise the first `XmlType` of the name decides.
   */
  lemma TypeToRustTypeCases(m: MetadataXml.Metadata, name: string)
    ensures (exists t :: MetadataXml.TypeElement(t) in m.elements && t.name == name) ==>
      TypeToRustType(m, name) == Some(Mapped(name, true))
    ensures (forall t :: MetadataXml.TypeElement(t) in m.elements ==> t.name != name) &&
            (forall x :: MetadataXml.XmlTypeElement(x) in m.elements ==> x.name != name) ==>
      TypeToRustType(m, name).None?
    ensures (forall t :: MetadataXml.TypeElement(t) in m.elements ==> t.name != name) &&
            MetadataXml.FindXmlType(m, name).Some? ==>
      var x := MetadataXml.FindXmlType(m, name).value;
      TypeToRustType(m, name) ==
        (if x.javaType.None? then None else JavaTypeMap(x.javaType.value, x.unsigned == Some(true)))
  {
    if exists t :: MetadataXml.TypeElement(t) in m.elements && t.name == name {
      var t :| MetadataXml.TypeElement(t) in m.elements && t.name == name;
      assert t in MetadataXml.Types(m);
    } else {
      forall t | MetadataXml.TypeElement(t) in m.elements ensures t.name != name {
      }
      if forall x :: MetadataXml.XmlTypeElement(x) in m.elements ==> x.name != name {
        forall x | x in MetadataXml.XmlTypes(m) ensures x.name != name {
        }
      }
    }
  }

  /** `Option<bool>::unwrap_or_default`. */
  function UnwrapOrFalse(b: Option<bool>): bool
  {
    match b
    case Some(v) => v
    case None => false
  }

  /** A mapped name is nullable exactly when it names a `Type` or the first `XmlType` of the name is a Java string. */
  lemma NullableIffTypeOrString(m: MetadataXml.Metadata, name: string)
    requires TypeToRustType(m, name).Some?
    ensures TypeToRustType(m, name).value.nullable <==>
      (exists t :: MetadataXml.TypeElement(t) in m.elements && t.name == name) ||
      (MetadataXml.FindXmlType(m, name).Some? &&
       MetadataXml.FindXmlType(m, name).value.javaType == Some("java.lang.String"))
  {
    TypeToRustTypeCases(m, name);
  }

  /** A field's Rust type: a name wrapped in `Vec`, `Box` or `Option`. */
  datatype RustType =
    | Named(name: string)
    | VecOf(element: RustType)
    | BoxOf(boxed: RustType)
    | OptionOf(present: RustType)

  /** The errors of the generator that come from the metadata itself. */
  datatype CodegenError = FieldTypeNotFound(typeName: string)

  datatype Outcome<T> = Generated(value: T) | Failed(error: CodegenError)

  /** The three fields whose type refers back to their own type. */
  const BoxedFields: set<(string, string)> :=
    {("ThreadGroup", "parent"), ("ClassLoader", "type"), ("OldObject", "referrer")}

  predicate Boxed(typeName: string, fieldName: string)
  {
    (typeName == "ThreadGroup" && fieldName == "parent")
    || (typeName == "ClassLoader" && fieldName == "type")
    || (typeName == "OldObject" && fieldName == "referrer")
  }

  /** The hard-coded list is exactly the three pairs. */
  lemma BoxedExactly(typeName: string, fieldName: string)
    ensures Boxed(typeName, fieldName) <==> (typeName, fieldName) in BoxedFields
  {
  }

  /** The `Option` wrapper, if any, removed. */
  function Core(t: RustType): RustType
  {
    if t.OptionOf? then t.present else t
  }

  /**
   * The shape `field_type` gives a mapped name: an array is a `Vec` of the
   * name and nothing else; otherwise the name is boxed for the three
   * self-referring fields and put in an `Option`, outside the box, when
   * nullable.
   */
  function FieldShape(mapped: Mapped, typeName: string, f: MetadataXml.Field): (r: RustType)
    ensures UnwrapOrFalse(f.isArray) ==> r == VecOf(Named(mapped.rustName))
    ensures !UnwrapOrFalse(f.isArray) ==>
      (r.OptionOf? <==> mapped.nullable) &&
      (Core(r).BoxOf? <==> (typeName, f.name) in BoxedFields) &&
      (if Core(r).BoxOf? then Core(r).boxed else Core(r)) == Named(mapped.rustName)
  {
    var named := Named(mapped.rustName);
    if UnwrapOrFalse(f.isArray) then VecOf(named)
    else
      var inner := if Boxed(typeName, f.name) then BoxOf(named) else named;
      if mapped.nullable then OptionOf(inner) else inner
  }

  /** `field_type`: an unmapped type fails with its name; a mapped one takes its shape. */
  function FieldType(m: MetadataXml.Metadata, typeName: string, f: MetadataXml.Field): (r: Outcome<RustType>)
    ensures r.Failed? <==> TypeToRustType(m, f.typ).None?
    ensures r.Failed? ==> r.error == FieldTypeNotFound(f.typ)
    ensures r.Generated? ==> r.value == FieldShape(TypeToRustType(m, f.typ).value, typeName, f)
  {
    match TypeToRustType(m, f.typ)
    case None => Failed(FieldTypeNotFound(f.typ))
    case Some(mapped) => Generated(FieldShape(mapped, typeName, f))
  }

  /** The Rust keywords a field name would collide with. */
  const RawKeywords: set<string> := {"type", "virtual"}

  /** `field_identifier`, given the snake-cased name: a keyword gets the `r#` prefix. */
  function FieldIdentifier(snakeName: string): (r: string)
    ensures r == snakeName || r == "r#" + snakeName
    ensures r == "r#" + snakeName <==> snakeName in RawKeywords
  {
    if snakeName == "type" || snakeName == "virtual" then "r#" + snakeName else snakeName
  }

  /** Removing the raw prefix gives back the snake-cased name. */
  function StripRaw(ident: string): (r: string)
    ensures |r| <= |ident|
  {
    if |ident| >= 2 && ident[..2] == "r#" then ident[2..] else ident
  }

  lemma FieldIdentifierRoundTrip(snakeName: string)
    requires |snakeName| < 2 || snakeName[..2] != "r#"
    ensures StripRaw(FieldIdentifier(snakeName)) == snakeName
  {
    if snakeName in RawKeywords {
      assert ("r#" + snakeName)[2..] == snakeName;
    }
  }

  /** A generated struct field: its doc text, serde rename, identifier and type. */
  datatype FieldItem = FieldItem(doc: string, rename: string, ident: string, rustType: RustType)

  /**
   * `struct_field`: documented by the description or else the label,
   * renamed to the name as written, named by its escaped snake-cased form.
   */
  function StructField(m: MetadataXml.Metadata, snakeCase: string -> string, typeName: string,
                       f: MetadataXml.Field): (r: Outcome<FieldItem>)
    ensures r.Failed? <==> TypeToRustType(m, f.typ).None?
    ensures r.Failed? ==> r.error == FieldTypeNotFound(f.typ)
    ensures r.Generated? ==>
      r.value.rename == f.name &&
      r.value.ident == FieldIdentifier(snakeCase(f.name)) &&
      r.value.rustType == FieldType(m, typeName, f).value &&
      (f.description.Some? ==> r.value.doc == f.description.value) &&
      (f.description.None? ==> r.value.doc == f.fieldLabel)
  {
    var doc := match f.description case Some(d) => d case None => f.fieldLabel;
    match FieldType(m, typeName, f)
    case Failed(e) => Failed(e)
    case Generated(t) =>
      Generated(FieldItem(doc, f.name, FieldIdentifier(snakeCase(f.name)), t))
  }

  /** Every field's type maps to a Rust type. */
  ghost predicate FieldsMap(m: MetadataXml.Metadata, fields: seq<MetadataXml.Field>)
  {
    forall i :: 0 <= i < |fields| ==> TypeToRustType(m, fields[i].typ).Some?
  }

  /**
   * `.map(f).collect::<Result<Vec<_>>>()`: every result in order, or the
   * error of the first that fails.
   */
  function Collect<A, B>(f: A -> Outcome<B>, xs: seq<A>): (r: Outcome<seq<B>>)
    ensures r.Generated? <==> forall i :: 0 <= i < |xs| ==> f(xs[i]).Generated?
    ensures r.Generated? ==>
      |r.value| == |xs| && forall i :: 0 <= i < |xs| ==> r.value[i] == f(xs[i]).value
    decreases |xs|
  {
    if |xs| == 0 then Generated([])
    else
      assert forall i :: 1 <= i < |xs| ==> xs[1..][i - 1] == xs[i];
      match f(xs[0])
      case Failed(e) => Failed(e)
      case Generated(y) =>
        match Collect(f, xs[1..])
        case Failed(e) => Failed(e)
        case Generated(ys) => Generated([y] + ys)
  }

  /** A failure is the error of the first element that fails. */
  lemma {:induction false} CollectFirstFailure<A, B>(f: A -> Outcome<B>, xs: seq<A>)
    requires Collect(f, xs).Failed?
    ensures exists i :: (0 <= i < |xs| && f(xs[i]).Failed? && Collect(f, xs).error == f(xs[i]).error &&
                         forall j :: 0 <= j < i ==> f(xs[j]).Generated?)
    decreases |xs|
  {
    if f(xs[0]).Generated? {
      CollectFirstFailure(f, xs[1..]);
      var i :| 0 <= i < |xs[1..]| && f(xs[1..][i]).Failed? && Collect(f, xs[1..]).error == f(xs[1..][i]).error &&
        forall j :: 0 <= j < i ==> f(xs[1..][j]).Generated?;
      assert xs[1..][i] == xs[i + 1];
      assert forall j :: 1 <= j < i + 1 ==> xs[1..][j - 1] == xs[j];
    }
  }

  /** `.map(struct_field).collect()` over a type's or event's fields. */
  function StructFields(m: MetadataXml.Metadata, snakeCase: string -> string, typeName: string,
                        fields: seq<MetadataXml.Field>): (r: Outcome<seq<FieldItem>>)
    ensures r.Generated? <==> FieldsMap(m, fields)
    ensures r.Generated? ==>
      |r.value| == |fields| &&
      forall i :: 0 <= i < |fields| ==> r.value[i] == StructField(m, snakeCase, typeName, fields[i]).value
    ensures r.Failed? ==> exists i :: 0 <= i < |fields| && r.error == FieldTypeNotFound(fields[i].typ)
  {
    var each := (f: MetadataXml.Field) => StructField(m, snakeCase, typeName, f);
    var r := Collect(each, fields);
    if r.Failed? then
      CollectFirstFailure(each, fields);
      r
    else r
  }

  /** An item of the generated file. */
  datatype Item =
    | UseItem(path: string)
    | StructItem(doc: Option<string>, name: string, fields: seq<FieldItem>)
    | EventImpl(typeName: string, eventName: string)
    | EventsEnum(enumDoc: string, variants: seq<string>)

  /** `type_struct`: a struct named after the type, documented by its label if any. */
  function TypeStruct(m: MetadataXml.Metadata, snakeCase: string -> string, t: MetadataXml.Type): (r: Outcome<Item>)
    ensures r.Generated? <==> FieldsMap(m, t.fields)
    ensures r.Generated? ==>
      r.value.StructItem? && r.value.name == t.name && r.value.doc == t.typeLabel &&
      |r.value.fields| == |t.fields|
  {
    match StructFields(m, snakeCase, t.name, t.fields)
    case Failed(e) => Failed(e)
    case Generated(fs) => Generated(StructItem(t.typeLabel, t.name, fs))
  }

  /** `event_struct`: a struct named after the event, documented by its description or else its name. */
  function EventStruct(m: MetadataXml.Metadata, snakeCase: string -> string, e: MetadataXml.Event): (r: Outcome<Item>)
    ensures r.Generated? <==> FieldsMap(m, e.fields)
    ensures r.Generated? ==>
      r.value.StructItem? && r.value.name == e.name &&
      r.value.doc == Some(if e.description.Some? then e.description.value else e.name) &&
      |r.value.fields| == |e.fields|
  {
    var doc := match e.description case Some(d) => d case None => e.name;
    match StructFields(m, snakeCase, e.name, e.fields)
    case Failed(err) => Failed(err)
    case Generated(fs) => Generated(StructItem(Some(doc), e.name, fs))
  }

  /** `events_enum`: one variant per event, in name order. */
  function EventsEnumItem(m: MetadataXml.Metadata): (r: Item)
    ensures r.EventsEnum? && r.enumDoc == "All events"
    ensures |r.variants| == |MetadataXml.Events(m)|
    ensures forall i, j :: 0 <= i < j < |r.variants| ==> Sorting.NameLe(r.variants[i], r.variants[j])
    ensures forall n :: n in r.variants <==> exists e :: MetadataXml.EventElement(e) in m.elements && e.name == n
  {
    var sorted := MetadataXml.EventsSorted(m);
    var names := seq(|sorted|, i requires 0 <= i < |sorted| => sorted[i].name);
    forall n | n in names ensures exists e :: MetadataXml.EventElement(e) in m.elements && e.name == n {
      var i :| 0 <= i < |names| && names[i] == n;
      assert sorted[i] in multiset(MetadataXml.Events(m));
    }
    forall n | exists e :: MetadataXml.EventElement(e) in m.elements && e.name == n ensures n in names {
      var e :| MetadataXml.EventElement(e) in m.elements && e.name == n;
      assert e in multiset(sorted);
      var i :| 0 <= i < |sorted| && sorted[i] == e;
      assert names[i] == n;
    }
    EventsEnum("All events", names)
  }

  /** An event's struct followed by its `EventType` impl. */
  function EventPair(m: MetadataXml.Metadata, snakeCase: string -> string, e: MetadataXml.Event): (r: Outcome<seq<Item>>)
    ensures r.Generated? <==> FieldsMap(m, e.fields)
    ensures r.Generated? ==> r.value == [EventStruct(m, snakeCase, e).value, EventImpl(e.name, e.name)]
  {
    match EventStruct(m, snakeCase, e)
    case Failed(err) => Failed(err)
    case Generated(item) => Generated([item, EventImpl(e.name, e.name)])
  }

  /** The sequences one after the other. */
  function Flatten<T>(xss: seq<seq<T>>): (r: seq<T>)
    decreases |xss|
  {
    if |xss| == 0 then [] else xss[0] + Flatten(xss[1..])
  }

  /** Flattening pairs puts the `j`th of the `i`th pair at `2i + j`. */
  lemma {:induction false} FlattenPairs<T>(xss: seq<seq<T>>)
    requires forall i :: 0 <= i < |xss| ==> |xss[i]| == 2
    ensures |Flatten(xss)| == 2 * |xss|
    ensures forall i, j :: 0 <= i < |xss| && 0 <= j < 2 ==> Flatten(xss)[2 * i + j] == xss[i][j]
    decreases |xss|
  {
    if |xss| > 0 {
      FlattenPairs(xss[1..]);
      forall i, j | 0 <= i < |xss| && 0 <= j < 2 ensures Flatten(xss)[2 * i + j] == xss[i][j] {
        if i > 0 {
          assert xss[1..][i - 1] == xss[i];
          assert Flatten(xss)[2 * i + j] == Flatten(xss[1..])[2 * (i - 1) + j];
        }
      }
    }
  }

  /** The items before the type structs. */
  const UseItems: seq<Item> := [UseItem("crate::event::EventType"), UseItem("serde::Deserialize")]

  /** The type structs in name order. */
  function TypeItems(m: MetadataXml.Metadata, snakeCase: string -> string): Outcome<seq<Item>>
  {
    Collect((t: MetadataXml.Type) => TypeStruct(m, snakeCase, t), MetadataXml.TypesSorted(m))
  }

  /** Each event's struct and impl, events in name order. */
  function EventPairs(m: MetadataXml.Metadata, snakeCase: string -> string): Outcome<seq<seq<Item>>>
  {
    Collect((e: MetadataXml.Event) => EventPair(m, snakeCase, e), MetadataXml.EventsSorted(m))
  }

  /** The file from its parts: the `use` items, the structs, the event pairs and the enum. */
  function Assemble(typeItems: Outcome<seq<Item>>, pairs: Outcome<seq<seq<Item>>>, last: Item): Outcome<seq<Item>>
  {
    match typeItems
    case Failed(e) => Failed(e)
    case Generated(ts) =>
      match pairs
      case Failed(e) => Failed(e)
      case Generated(ps) => Generated(UseItems + ts + Flatten(ps) + [last])
  }

  /** Where each part lands in the assembled file. */
  lemma AssembleLayout(ts: seq<Item>, ps: seq<seq<Item>>, last: Item)
    requires forall i :: 0 <= i < |ps| ==> |ps[i]| == 2
    ensures Assemble(Generated(ts), Generated(ps), last).Generated?
    ensures var r := Assemble(Generated(ts), Generated(ps), last).value;
      |r| == 2 + |ts| + 2 * |ps| + 1 && r[..2] == UseItems && r[|r| - 1] == last &&
      (forall i :: 0 <= i < |ts| ==> r[2 + i] == ts[i]) &&
      (forall i :: 0 <= i < |ps| ==> r[2 + |ts| + 2 * i] == ps[i][0] && r[2 + |ts| + 2 * i + 1] == ps[i][1])
  {
    FlattenPairs(ps);
    var r := UseItems + ts + Flatten(ps) + [last];
    assert r[..2] == UseItems;
    forall i | 0 <= i < |ps| ensures r[2 + |ts| + 2 * i] == ps[i][0] && r[2 + |ts| + 2 * i + 1] == ps[i][1] {
      assert r[2 + |ts| + 2 * i] == Flatten(ps)[2 * i + 0];
      assert r[2 + |ts| + 2 * i + 1] == Flatten(ps)[2 * i + 1];
    }
  }

  /**
   * `metadata_to_rs`: the two `use` items, the type structs in name order,
   * each event's struct and impl in name order, then the `Events` enum.
   */
  function MetadataToRs(m: MetadataXml.Metadata, snakeCase: string -> string): (r: Outcome<seq<Item>>)
    ensures r.Generated? ==>
      |r.value| == 2 + |MetadataXml.Types(m)| + 2 * |MetadataXml.Events(m)| + 1 &&
      r.value[..2] == UseItems &&
      r.value[|r.value| - 1] == EventsEnumItem(m)
  {
    var r := Assemble(TypeItems(m, snakeCase), EventPairs(m, snakeCase), EventsEnumItem(m));
    if r.Generated? then
      AssembleLayout(TypeItems(m, snakeCase).value, EventPairs(m, snakeCase).value, EventsEnumItem(m));
      r
    else r
  }

  /** After the `use` items come the type structs, in name order. */
  lemma MetadataToRsTypesLayout(m: MetadataXml.Metadata, snakeCase: string -> string)
    requires MetadataToRs(m, snakeCase).Generated?
    ensures forall i :: 0 <= i < |MetadataXml.TypesSorted(m)| ==>
      MetadataToRs(m, snakeCase).value[2 + i] == TypeStruct(m, snakeCase, MetadataXml.TypesSorted(m)[i]).value
  {
    var ts := TypeItems(m, snakeCase).value;
    var ps := EventPairs(m, snakeCase).value;
    AssembleLayout(ts, ps, EventsEnumItem(m));
  }

  /** The `i`th event in name order has its struct at `2 + types + 2i` and its impl after it. */
  lemma MetadataToRsEventAt(m: MetadataXml.Metadata, snakeCase: string -> string, i: nat)
    requires MetadataToRs(m, snakeCase).Generated? && i < |MetadataXml.EventsSorted(m)|
    ensures var e := MetadataXml.EventsSorted(m)[i];
      var at := 2 + |MetadataXml.TypesSorted(m)| + 2 * i;
      MetadataToRs(m, snakeCase).value[at] == EventStruct(m, snakeCase, e).value &&
      MetadataToRs(m, snakeCase).value[at + 1] == EventImpl(e.name, e.name)
  {
    var ts := TypeItems(m, snakeCase).value;
    var ps := EventPairs(m, snakeCase).value;
    EventPairAt(m, snakeCase, i);
    AssembleLayout(ts, ps, EventsEnumItem(m));
  }

  /** The `i`th event pair is that event's struct and impl, and every pair has two items. */
  lemma EventPairAt(m: MetadataXml.Metadata, snakeCase: string -> string, i: nat)
    requires EventPairs(m, snakeCase).Generated? && i < |MetadataXml.EventsSorted(m)|
    ensures var ps := EventPairs(m, snakeCase).value; var e := MetadataXml.EventsSorted(m)[i];
      (forall k :: 0 <= k < |ps| ==> |ps[k]| == 2) &&
      ps[i] == [EventStruct(m, snakeCase, e).value, EventImpl(e.name, e.name)]
  {
  }

  /** Every field of every type and event in the document has a mapped type. */
  ghost predicate AllFieldsMap(m: MetadataXml.Metadata)
  {
    (forall t :: MetadataXml.TypeElement(t) in m.elements ==> FieldsMap(m, t.fields)) &&
    (forall e :: MetadataXml.EventElement(e) in m.elements ==> FieldsMap(m, e.fields))
  }

  /** The type structs are generated exactly when every field of every `Type` maps. */
  lemma TypeItemsSucceed(m: MetadataXml.Metadata, snakeCase: string -> string)
    ensures TypeItems(m, snakeCase).Generated? <==>
      forall t :: MetadataXml.TypeElement(t) in m.elements ==> FieldsMap(m, t.fields)
  {
    var types := MetadataXml.TypesSorted(m);
    if TypeItems(m, snakeCase).Generated? {
      forall t | MetadataXml.TypeElement(t) in m.elements ensures FieldsMap(m, t.fields) {
        assert t in multiset(MetadataXml.Types(m));
        var i :| 0 <= i < |types| && types[i] == t;
        assert TypeStruct(m, snakeCase, types[i]).Generated?;
      }
    } else {
      var i :| 0 <= i < |types| && !TypeStruct(m, snakeCase, types[i]).Generated?;
      assert types[i] in multiset(MetadataXml.Types(m));
    }
  }

  /** The event structs are generated exactly when every field of every `Event` maps. */
  lemma EventPairsSucceed(m: MetadataXml.Metadata, snakeCase: string -> string)
    ensures EventPairs(m, snakeCase).Generated? <==>
      forall e :: MetadataXml.EventElement(e) in m.elements ==> FieldsMap(m, e.fields)
  {
    var events := MetadataXml.EventsSorted(m);
    if EventPairs(m, snakeCase).Generated? {
      forall e | MetadataXml.EventElement(e) in m.elements ensures FieldsMap(m, e.fields) {
        assert e in multiset(MetadataXml.Events(m));
        var i :| 0 <= i < |events| && events[i] == e;
        assert EventPair(m, snakeCase, events[i]).Generated?;
      }
    } else {
      var i :| 0 <= i < |events| && !EventPair(m, snakeCase, events[i]).Generated?;
      assert events[i] in multiset(MetadataXml.Events(m));
    }
  }

  /** Generation succeeds exactly when every field type in the document maps. */
  lemma MetadataToRsSucceeds(m: MetadataXml.Metadata, snakeCase: string -> string)
    ensures MetadataToRs(m, snakeCase).Generated? <==> AllFieldsMap(m)
  {
    TypeItemsSucceed(m, snakeCase);
    EventPairsSucceed(m, snakeCase);
  }
}
