/**
 * The `jfr-metadata-xml` crate: the document model of a JDK `metadata.xml`
 * (the fields the code generator reads) and the queries over it, which
 * select the elements of one kind in document order, find the first of a
 * name, or sort by name.
 */
module MetadataXml {
  import opened Errors
  import Sorting

  datatype Field = Field(
    typ: string,
    isArray: Option<bool>,
    name: string,
    fieldLabel: string,
    description: Option<string>)

  datatype Event = Event(fields: seq<Field>, name: string, description: Option<string>)

  datatype Type = Type(fields: seq<Field>, name: string, typeLabel: Option<string>)

  datatype XmlType = XmlType(name: string, javaType: Option<string>, unsigned: Option<bool>)

  datatype XmlContentType = XmlContentType(name: string, annotation: string)

  datatype RootElement =
    | EventElement(event: Event)
    | TypeElement(typ: Type)
    | XmlTypeElement(xmlType: XmlType)
    | XmlContentTypeElement(contentType: XmlContentType)
    | RelationElement(name: string)

  datatype Metadata = Metadata(elements: seq<RootElement>)

  /** `iter().filter_map(f)`: the `Some` results of `f`, in order. */
  function FilterMap<A, B>(f: A -> Option<B>, xs: seq<A>): (r: seq<B>)
    ensures |r| <= |xs|
    decreases |xs|
  {
    if |xs| == 0 then []
    else
      var rest := FilterMap(f, xs[1..]);
      match f(xs[0])
      case Some(y) => [y] + rest
      case None => rest
  }

  /** What is selected is exactly what `f` gives for some element. */
  lemma {:induction false} FilterMapMembers<A, B>(f: A -> Option<B>, xs: seq<A>, y: B)
    ensures y in FilterMap(f, xs) <==> exists i :: 0 <= i < |xs| && f(xs[i]) == Some(y)
    decreases |xs|
  {
    if |xs| > 0 {
      FilterMapMembers(f, xs[1..], y);
      assert forall i :: 1 <= i < |xs| ==> xs[1..][i - 1] == xs[i];
      if y in FilterMap(f, xs[1..]) {
        var i :| 0 <= i < |xs[1..]| && f(xs[1..][i]) == Some(y);
        assert f(xs[i + 1]) == Some(y);
      }
    }
  }

  /** Selecting from two pieces of a document selects from each, in order. */
  lemma {:induction false} FilterMapConcat<A, B>(f: A -> Option<B>, xs: seq<A>, ys: seq<A>)
    ensures FilterMap(f, xs + ys) == FilterMap(f, xs) + FilterMap(f, ys)
    decreases |xs|
  {
    if |xs| == 0 {
      assert xs + ys == ys;
    } else {
      assert (xs + ys)[0] == xs[0];
      assert (xs + ys)[1..] == xs[1..] + ys;
      FilterMapConcat(f, xs[1..], ys);
    }
  }

  function AsEvent(e: RootElement): Option<Event>
  {
    if e.EventElement? then Some(e.event) else None
  }

  function AsType(e: RootElement): Option<Type>
  {
    if e.TypeElement? then Some(e.typ) else None
  }

  function AsXmlType(e: RootElement): Option<XmlType>
  {
    if e.XmlTypeElement? then Some(e.xmlType) else None
  }

  function AsXmlContentType(e: RootElement): Option<XmlContentType>
  {
    if e.XmlContentTypeElement? then Some(e.contentType) else None
  }

  /** `events`: every `Event` element, in document order. */
  function Events(m: Metadata): (r: seq<Event>)
    ensures forall e :: e in r <==> EventElement(e) in m.elements
  {
    var r := FilterMap(AsEvent, m.elements);
    assert forall e :: e in r ==> EventElement(e) in m.elements by {
      forall e | e in r ensures EventElement(e) in m.elements {
        FilterMapMembers(AsEvent, m.elements, e);
        var i :| 0 <= i < |m.elements| && AsEvent(m.elements[i]) == Some(e);
        assert m.elements[i] == EventElement(e);
      }
    }
    assert forall e :: EventElement(e) in m.elements ==> e in r by {
      forall e | EventElement(e) in m.elements ensures e in r {
        FilterMapMembers(AsEvent, m.elements, e);
        var i :| 0 <= i < |m.elements| && m.elements[i] == EventElement(e);
        assert AsEvent(m.elements[i]) == Some(e);
      }
    }
    r
  }

  /** `types`: every `Type` element, in document order. */
  function Types(m: Metadata): (r: seq<Type>)
    ensures forall t :: t in r <==> TypeElement(t) in m.elements
  {
    var r := FilterMap(AsType, m.elements);
    assert forall t :: t in r ==> TypeElement(t) in m.elements by {
      forall t | t in r ensures TypeElement(t) in m.elements {
        FilterMapMembers(AsType, m.elements, t);
        var i :| 0 <= i < |m.elements| && AsType(m.elements[i]) == Some(t);
        assert m.elements[i] == TypeElement(t);
      }
    }
    assert forall t :: TypeElement(t) in m.elements ==> t in r by {
      forall t | TypeElement(t) in m.elements ensures t in r {
        FilterMapMembers(AsType, m.elements, t);
        var i :| 0 <= i < |m.elements| && m.elements[i] == TypeElement(t);
        assert AsType(m.elements[i]) == Some(t);
      }
    }
    r
  }

  /** `xml_types`: every `XmlType` element, in document order. */
  function XmlTypes(m: Metadata): (r: seq<XmlType>)
    ensures forall t :: t in r <==> XmlTypeElement(t) in m.elements
  {
    var r := FilterMap(AsXmlType, m.elements);
    assert forall t :: t in r ==> XmlTypeElement(t) in m.elements by {
      forall t | t in r ensures XmlTypeElement(t) in m.elements {
        FilterMapMembers(AsXmlType, m.elements, t);
        var i :| 0 <= i < |m.elements| && AsXmlType(m.elements[i]) == Some(t);
        assert m.elements[i] == XmlTypeElement(t);
      }
    }
    assert forall t :: XmlTypeElement(t) in m.elements ==> t in r by {
      forall t | XmlTypeElement(t) in m.elements ensures t in r {
        FilterMapMembers(AsXmlType, m.elements, t);
        var i :| 0 <= i < |m.elements| && m.elements[i] == XmlTypeElement(t);
        assert AsXmlType(m.elements[i]) == Some(t);
      }
    }
    r
  }

  /** `xml_content_types`: every `XmlContentType` element, in document order. */
  function XmlContentTypes(m: Metadata): (r: seq<XmlContentType>)
    ensures forall t :: t in r <==> XmlContentTypeElement(t) in m.elements
  {
    var r := FilterMap(AsXmlContentType, m.elements);
    assert forall t :: t in r ==> XmlContentTypeElement(t) in m.elements by {
      forall t | t in r ensures XmlContentTypeElement(t) in m.elements {
        FilterMapMembers(AsXmlContentType, m.elements, t);
        var i :| 0 <= i < |m.elements| && AsXmlContentType(m.elements[i]) == Some(t);
        assert m.elements[i] == XmlContentTypeElement(t);
      }
    }
    assert forall t :: XmlContentTypeElement(t) in m.elements ==> t in r by {
      forall t | XmlContentTypeElement(t) in m.elements ensures t in r {
        FilterMapMembers(AsXmlContentType, m.elements, t);
        var i :| 0 <= i < |m.elements| && m.elements[i] == XmlContentTypeElement(t);
        assert AsXmlContentType(m.elements[i]) == Some(t);
      }
    }
    r
  }

  /** Events of a document split in two are those of the first part, then those of the second. */
  lemma EventsInOrder(a: seq<RootElement>, b: seq<RootElement>)
    ensures Events(Metadata(a + b)) == Events(Metadata(a)) + Events(Metadata(b))
  {
    FilterMapConcat(AsEvent, a, b);
  }

  lemma TypesInOrder(a: seq<RootElement>, b: seq<RootElement>)
    ensures Types(Metadata(a + b)) == Types(Metadata(a)) + Types(Metadata(b))
  {
    FilterMapConcat(AsType, a, b);
  }

  lemma XmlTypesInOrder(a: seq<RootElement>, b: seq<RootElement>)
    ensures XmlTypes(Metadata(a + b)) == XmlTypes(Metadata(a)) + XmlTypes(Metadata(b))
  {
    FilterMapConcat(AsXmlType, a, b);
  }

  lemma XmlContentTypesInOrder(a: seq<RootElement>, b: seq<RootElement>)
    ensures XmlContentTypes(Metadata(a + b)) == XmlContentTypes(Metadata(a)) + XmlContentTypes(Metadata(b))
  {
    FilterMapConcat(AsXmlContentType, a, b);
  }

  /** Selecting from one more element appends its selection, if any. */
  lemma FilterMapSnoc<A, B>(f: A -> Option<B>, xs: seq<A>, x: A)
    ensures FilterMap(f, xs + [x]) == FilterMap(f, xs) + (if f(x).Some? then [f(x).value] else [])
  {
    FilterMapConcat(f, xs, [x]);
    assert [x][1..] == [];
  }

  /** Each further `Event` element adds one event at the end, and any other element none. */
  lemma EventsSnoc(es: seq<RootElement>, x: RootElement)
    ensures Events(Metadata(es + [x])) == Events(Metadata(es)) + (if x.EventElement? then [x.event] else [])
  {
    FilterMapSnoc(AsEvent, es, x);
  }

  /** Each further `Type` element adds one type at the end, and any other element none. */
  lemma TypesSnoc(es: seq<RootElement>, x: RootElement)
    ensures Types(Metadata(es + [x])) == Types(Metadata(es)) + (if x.TypeElement? then [x.typ] else [])
  {
    FilterMapSnoc(AsType, es, x);
  }

  /** Each further `XmlType` element adds one XML type at the end, and any other element none. */
  lemma XmlTypesSnoc(es: seq<RootElement>, x: RootElement)
    ensures XmlTypes(Metadata(es + [x])) == XmlTypes(Metadata(es)) + (if x.XmlTypeElement? then [x.xmlType] else [])
  {
    FilterMapSnoc(AsXmlType, es, x);
  }

  /** Each further `XmlContentType` element adds one content type at the end, and any other element none. */
  lemma XmlContentTypesSnoc(es: seq<RootElement>, x: RootElement)
    ensures XmlContentTypes(Metadata(es + [x])) ==
      XmlContentTypes(Metadata(es)) + (if x.XmlContentTypeElement? then [x.contentType] else [])
  {
    FilterMapSnoc(AsXmlContentType, es, x);
  }

  /** `iter().find(p)`: the first element satisfying `p`. */
  function Find<T(==)>(xs: seq<T>, p: T -> bool): (r: Option<T>)
    ensures r.None? <==> forall i :: 0 <= i < |xs| ==> !p(xs[i])
    ensures r.Some? ==> exists i :: 0 <= i < |xs| && xs[i] == r.value && p(xs[i]) && forall j :: 0 <= j < i ==> !p(xs[j])
    decreases |xs|
  {
    if |xs| == 0 then None
    else if p(xs[0]) then Some(xs[0])
    else
      var r := Find(xs[1..], p);
      assert forall i :: 1 <= i < |xs| ==> xs[1..][i - 1] == xs[i];
      if r.Some? then
        var i :| 0 <= i < |xs[1..]| && xs[1..][i] == r.value && p(xs[1..][i]) && forall j :: 0 <= j < i ==> !p(xs[1..][j]);
        assert xs[i + 1] == r.value && forall j :: 0 <= j < i + 1 ==> !p(xs[j]);
        r
      else r
  }

  /** `find_type`: the first `Type` with the name, if any. */
  function FindType(m: Metadata, name: string): (r: Option<Type>)
    ensures r.None? <==> forall t :: t in Types(m) ==> t.name != name
    ensures r.Some? ==> r.value.name == name && TypeElement(r.value) in m.elements
    ensures r.Some? ==>
      exists i :: 0 <= i < |Types(m)| && Types(m)[i] == r.value && forall j :: 0 <= j < i ==> Types(m)[j].name != name
  {
    Find(Types(m), (t: Type) => t.name == name)
  }

  /** `find_xml_type`: the first `XmlType` with the name, if any. */
  function FindXmlType(m: Metadata, name: string): (r: Option<XmlType>)
    ensures r.None? <==> forall t :: t in XmlTypes(m) ==> t.name != name
    ensures r.Some? ==> r.value.name == name && XmlTypeElement(r.value) in m.elements
    ensures r.Some? ==>
      exists i :: 0 <= i < |XmlTypes(m)| && XmlTypes(m)[i] == r.value && forall j :: 0 <= j < i ==> XmlTypes(m)[j].name != name
  {
    Find(XmlTypes(m), (t: XmlType) => t.name == name)
  }

  /** `events_sorted`: the events, reordered by name. */
  function EventsSorted(m: Metadata): (r: seq<Event>)
    ensures multiset(r) == multiset(Events(m))
    ensures |r| == |Events(m)|
    ensures forall i, j :: 0 <= i < j < |r| ==> Sorting.NameLe(r[i].name, r[j].name)
  {
    Sorting.SortBy(Events(m), (e: Event) => e.name)
  }

  /** `types_sorted`: the types, reordered by name. */
  function TypesSorted(m: Metadata): (r: seq<Type>)
    ensures multiset(r) == multiset(Types(m))
    ensures |r| == |Types(m)|
    ensures forall i, j :: 0 <= i < j < |r| ==> Sorting.NameLe(r[i].name, r[j].name)
  {
    Sorting.SortBy(Types(m), (t: Type) => t.name)
  }
}
