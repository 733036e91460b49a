/**
 * `EventResolver` of `resolver.rs`: the class map and primitive parsers a
 * chunk's metadata yields, schema-driven decoding of a value of a class
 * from event or pool bytes, and the table of resolved pool values.
 *
 * Decoding recurses through class fields; a non-pool field whose class
 * is its own reads nothing before recursing, so the recursion carries a
 * `fuel` bound standing for the finite stack.
 */
module Resolver {
  import opened Ints
  import opened Errors
  import opened Nom
  import opened Leb128
  import Primitives
  import opened MetadataElements
  import ConstantPool
  import Chunk
  import Time
  import opened Values

  /** What the resolver holds: classes by id, the chunk's pools, the parsers of primitive classes, and the time resolver. */
  datatype EventResolver = EventResolver(
    classes: map<I64, ClassElement>,
    constantPools: seq<ConstantPool.ConstantPoolEvent>,
    primitiveParsers: map<I64, Primitives.Kind>,
    timeResolver: Time.TimeResolver)

  /** Under each key the class map holds a class with that id. */
  lemma {:induction false} ClassMapIds(classes: seq<ClassElement>)
    ensures forall id :: id in ClassMap(classes) ==> ClassMap(classes)[id].id == id
    decreases |classes|
  {
    if |classes| > 0 {
      ClassMapIds(classes[..|classes| - 1]);
    }
  }

  /** The parser of every class whose name `Primitive::resolve_parser` knows, under that class's id. */
  function PrimitiveParsers(classes: map<I64, ClassElement>): (m: map<I64, Primitives.Kind>)
    ensures forall id :: id in m <==> id in classes && classes[id].name in Primitives.PrimitiveNames
    ensures forall id :: id in m ==> Primitives.KindName(m[id]) == classes[id].name
  {
    map id | id in classes && Primitives.ResolveParser(classes[id].name).Some? :: Primitives.ResolveParser(classes[id].name).value
  }

  /**
   * `EventResolver::new`: classes keyed by id (a later duplicate wins), the
   * pools in order, and a primitive parser for each class with a primitive name.
   */
  function NewEventResolver(header: Chunk.ChunkHeader, metadata: ChunkMetadata, pools: seq<ConstantPool.ConstantPoolEvent>): (er: EventResolver)
    ensures er.classes.Keys == Ids(metadata.root.metadata.classes)
    ensures forall id :: id in er.classes ==> er.classes[id].id == id
    ensures forall id :: id in er.primitiveParsers <==> id in er.classes && er.classes[id].name in Primitives.PrimitiveNames
    ensures forall id :: id in er.primitiveParsers ==> Primitives.KindName(er.primitiveParsers[id]) == er.classes[id].name
    ensures er.constantPools == pools
    ensures er.timeResolver == Time.NewTimeResolver(header)
  {
    var classes := ClassMap(metadata.root.metadata.classes);
    ClassMapIds(metadata.root.metadata.classes);
    EventResolver(classes, pools, PrimitiveParsers(classes), Time.NewTimeResolver(header))
  }

  /**
   * `class_id`: the first class named `name` in `order`, the map's
   * iteration order. That order is unspecified, so it is a parameter.
   */
  function ClassId(er: EventResolver, order: seq<I64>, name: string): (r: Option<I64>)
    ensures r.Some? ==> r.value in order && r.value in er.classes && er.classes[r.value].name == name
    ensures r.None? <==> forall k :: 0 <= k < |order| && order[k] in er.classes ==> er.classes[order[k]].name != name
    decreases |order|
  {
    if |order| == 0 then None
    else if order[0] in er.classes && er.classes[order[0]].name == name then Some(order[0])
    else
      var r := ClassId(er, order[1..], name);
      assert forall k :: 1 <= k < |order| ==> order[1..][k - 1] == order[k];
      r
  }

  /** When the order lists every key, `class_id` finds a class exactly when one has that name. */
  lemma ClassIdFinds(er: EventResolver, order: seq<I64>, name: string)
    requires forall id :: id in er.classes ==> id in order
    ensures ClassId(er, order, name).None? <==> forall id :: id in er.classes ==> er.classes[id].name != name
  {
    if ClassId(er, order, name).None? {
      forall id | id in er.classes
        ensures er.classes[id].name != name
      {
        var k :| 0 <= k < |order| && order[k] == id;
      }
    }
  }

  // Decoding

  /**
   * A value is of class `classId` when that class has a primitive parser
   * and the value is of that parser's variant, or the class is known and
   * the value is an object of it with one value per declared field, each
   * of the field's shape.
   */
  predicate Typed(er: EventResolver, classId: I64, v: Value)
    decreases v, 0
  {
    if classId in er.primitiveParsers then
      v.PrimitiveValue? && Primitives.Produces(er.primitiveParsers[classId], v.primitive)
    else
      classId in er.classes && v.Object? && v.classElement == er.classes[classId]
      && |v.fields| == |v.classElement.fields|
      && forall i :: 0 <= i < |v.fields| ==> TypedField(er, v.classElement.fields[i], v.fields[i])
  }

  /** A field's value: an array of single values for an array field, else a single value. */
  predicate TypedField(er: EventResolver, f: FieldElement, v: Value)
    decreases v, 2
  {
    if IsArrayType(f) then
      v.Array? && forall i :: 0 <= i < |v.elements| ==> TypedSingle(er, f, v.elements[i])
    else TypedSingle(er, f, v)
  }

  /** One value of a field: a pool reference under the field's type for a pool field, else a value of that type. */
  predicate TypedSingle(er: EventResolver, f: FieldElement, v: Value)
    decreases v, 1
  {
    if f.constantPool.Some? then v.ConstantPoolRef? && v.classId == f.typeId
    else Typed(er, f.typeId, v)
  }

  /**
   * `parse_value`: the registered primitive parser first; then the class,
   * or `ClassNotFound`; then the class's fields in declaration order.
   */
  function ParseValue(er: EventResolver, s: seq<Byte>, classId: I64, fuel: nat): (r: Result<(Value, seq<Byte>)>)
    ensures r.Ok? ==> Typed(er, classId, r.value.0)
    ensures classId !in er.primitiveParsers && classId !in er.classes ==> r == Err(ClassNotFound(classId))
    decreases fuel, 0, 0
  {
    if classId in er.primitiveParsers then
      match Primitives.ParseAs(er.primitiveParsers[classId], s)
      case PErr(e) => Err(FromNom(e))
      case POk(p, rest) => Ok((PrimitiveValue(p), rest))
    else if classId !in er.classes then Err(ClassNotFound(classId))
    else if fuel == 0 then Err(Panic("stack overflow"))
    else
      var c := er.classes[classId];
      match ParseFields(er, s, c.fields, fuel - 1)
      case Err(e) => Err(e)
      case Ok((vs, rest)) => Ok((Object(c, vs), rest))
  }

  /** The loop over a class's fields: one value per field, in order; the first error ends it. */
  function ParseFields(er: EventResolver, s: seq<Byte>, fields: seq<FieldElement>, fuel: nat): (r: Result<(seq<Value>, seq<Byte>)>)
    ensures r.Ok? ==> |r.value.0| == |fields|
    ensures r.Ok? ==> forall i :: 0 <= i < |fields| ==> TypedField(er, fields[i], r.value.0[i])
    decreases fuel, 5, |fields|
  {
    if |fields| == 0 then Ok(([], s))
    else
      match ParseField(er, s, fields[0], fuel)
      case Err(e) => Err(e)
      case Ok((v, s1)) =>
        match ParseFields(er, s1, fields[1..], fuel)
        case Err(e) => Err(e)
        case Ok((vs, s2)) =>
          assert forall i :: 1 <= i < |fields| ==> fields[1..][i - 1] == fields[i];
          Ok(([v] + vs, s2))
  }

  /** One field: `parse_field_array` for an array field, else `parse_field_single`. */
  function ParseField(er: EventResolver, s: seq<Byte>, f: FieldElement, fuel: nat): (r: Result<(Value, seq<Byte>)>)
    ensures r.Ok? ==> TypedField(er, f, r.value.0)
    decreases fuel, 4, 0
  {
    if IsArrayType(f) then ParseFieldArray(er, s, f, fuel) else ParseFieldSingle(er, s, f, fuel)
  }

  /**
   * `parse_field_array`: an `i32` varint length, then that many single
   * values. A negative length is the `Vec::with_capacity` panic.
   */
  function ParseFieldArray(er: EventResolver, s: seq<Byte>, f: FieldElement, fuel: nat): (r: Result<(Value, seq<Byte>)>)
    ensures r.Ok? ==> r.value.0.Array?
    ensures r.Ok? ==> forall i :: 0 <= i < |r.value.0.elements| ==> TypedSingle(er, f, r.value.0.elements[i])
    ensures r.Ok? ==> ReadI32(s).POk? && |r.value.0.elements| == ReadI32(s).value
    ensures ReadI32(s).PErr? ==> r == Err(FromNom(ReadI32(s).err))
    ensures ReadI32(s).POk? && ReadI32(s).value < 0 ==> r == Err(Panic("capacity overflow"))
    decreases fuel, 3, 0
  {
    match ReadI32(s)
    case PErr(e) => Err(FromNom(e))
    case POk(n, s1) =>
      if n < 0 then Err(Panic("capacity overflow"))
      else
        match ParseElements(er, s1, f, n, fuel)
        case Err(e) => Err(e)
        case Ok((vs, s2)) =>
          Ok((Array(vs), s2))
  }

  /** The loop of `parse_field_array`: `n` single values of field `f`. */
  function ParseElements(er: EventResolver, s: seq<Byte>, f: FieldElement, n: nat, fuel: nat): (r: Result<(seq<Value>, seq<Byte>)>)
    ensures r.Ok? ==> |r.value.0| == n
    ensures r.Ok? ==> forall i :: 0 <= i < n ==> TypedSingle(er, f, r.value.0[i])
    decreases fuel, 2, n
  {
    if n == 0 then Ok(([], s))
    else
      match ParseFieldSingle(er, s, f, fuel)
      case Err(e) => Err(e)
      case Ok((v, s1)) =>
        match ParseElements(er, s1, f, n - 1, fuel)
        case Err(e) => Err(e)
        case Ok((vs, s2)) =>
          Ok(([v] + vs, s2))
  }

  /**
   * `parse_field_single`: a pool field is one `i64` varint, kept as a
   * reference under the field's type without looking at any pool; any
   * other field is a value of the field's type.
   */
  function ParseFieldSingle(er: EventResolver, s: seq<Byte>, f: FieldElement, fuel: nat): (r: Result<(Value, seq<Byte>)>)
    ensures r.Ok? ==> TypedSingle(er, f, r.value.0)
    ensures f.constantPool.Some? ==> (r.Ok? <==> ReadI64(s).POk?)
    ensures f.constantPool.Some? && r.Ok? ==> r.value == (ConstantPoolRef(f.typeId, ReadI64(s).value), ReadI64(s).rest)
    decreases fuel, 1, 0
  {
    if f.constantPool.Some? then
      match ReadI64(s)
      case PErr(e) => Err(FromNom(e))
      case POk(index, rest) => Ok((ConstantPoolRef(f.typeId, index), rest))
    else ParseValue(er, s, f.typeId, fuel)
  }

  /** A class with a primitive name decodes through the parser `Primitive::resolve_parser` gives for that name. */
  lemma PrimitiveClassDecodes(header: Chunk.ChunkHeader, metadata: ChunkMetadata, pools: seq<ConstantPool.ConstantPoolEvent>, classId: I64, s: seq<Byte>, fuel: nat)
    requires var er := NewEventResolver(header, metadata, pools);
             classId in er.classes && er.classes[classId].name in Primitives.PrimitiveNames
    ensures var er := NewEventResolver(header, metadata, pools);
            var k := Primitives.ResolveParser(er.classes[classId].name).value;
            var p := Primitives.ParseAs(k, s);
            (ParseValue(er, s, classId, fuel).Ok? <==> p.POk?)
            && (p.POk? ==> ParseValue(er, s, classId, fuel).value == (PrimitiveValue(p.value), p.rest))
            && (p.PErr? ==> ParseValue(er, s, classId, fuel) == Err(FromNom(p.err)))
  {
    var er := NewEventResolver(header, metadata, pools);
    Primitives.ResolveKindName(er.primitiveParsers[classId]);
  }

  /**
   * `parse_event_object`: a value that must be an object. A class with a
   * primitive parser yields a primitive, which is reported as an event
   * parse error.
   */
  function ParseEventObject(er: EventResolver, s: seq<Byte>, classId: I64, fuel: nat): (r: Result<(Value, seq<Byte>)>)
    ensures r.Ok? ==> r.value.0.Object? && classId in er.classes && r.value.0.classElement == er.classes[classId]
    ensures r.Ok? ==> ParseValue(er, s, classId, fuel) == Ok(r.value)
    ensures classId !in er.primitiveParsers && ParseValue(er, s, classId, fuel).Ok? ==> r.Ok?
    ensures classId in er.primitiveParsers && ParseValue(er, s, classId, fuel).Ok? ==>
      r == Err(EventParse("parsed value is not an Object (this should not happen)"))
  {
    var (v, rest) :- ParseValue(er, s, classId, fuel);
    if v.Object? then Ok((v, rest))
    else Err(EventParse("parsed value is not an Object (this should not happen)"))
  }

  // Writing values back

  /** A value whose bytes fit the formats: string text fits an `i32` length, and so does every array. */
  predicate Writable(v: Value)
    decreases v
  {
    match v
    case PrimitiveValue(p) => Primitives.Encodable(p)
    case Object(_, fs) => forall i :: 0 <= i < |fs| ==> Writable(fs[i])
    case Array(es) => |es| < TWO_31 && forall i :: 0 <= i < |es| ==> Writable(es[i])
    case ConstantPoolRef(_, _) => true
  }

  /** Decoding needs one unit of fuel per level of object nesting. */
  predicate FitsFuel(v: Value, fuel: nat)
    decreases v
  {
    match v
    case Object(_, fs) => fuel > 0 && forall i :: 0 <= i < |fs| ==> FitsFuel(fs[i], fuel - 1)
    case Array(es) => forall i :: 0 <= i < |es| ==> FitsFuel(es[i], fuel)
    case _ => true
  }

  /** The bytes of a value: fields one after another, arrays after their length, pool references as their index. */
  function EncodeValue(v: Value): seq<Byte>
    requires Writable(v)
    decreases v, 1
  {
    match v
    case PrimitiveValue(p) => Primitives.EncodePrimitive(p)
    case Object(_, fs) => EncodeAll(fs)
    case Array(es) => EncodeI32(|es|) + EncodeAll(es)
    case ConstantPoolRef(_, index) => EncodeI64(index)
  }

  /** Values one after another. */
  function EncodeAll(vs: seq<Value>): seq<Byte>
    requires forall i :: 0 <= i < |vs| ==> Writable(vs[i])
    decreases vs, 0
  {
    if |vs| == 0 then [] else EncodeValue(vs[0]) + EncodeAll(vs[1..])
  }

  /** Every writable value of a class reads back from its bytes, whatever follows, given fuel for its nesting. */
  lemma {:induction false} ValueRoundTrip(er: EventResolver, classId: I64, v: Value, rest: seq<Byte>, fuel: nat)
    requires Typed(er, classId, v) && Writable(v) && FitsFuel(v, fuel)
    ensures ParseValue(er, EncodeValue(v) + rest, classId, fuel) == Ok((v, rest))
    decreases v, 0
  {
    if classId in er.primitiveParsers {
      var p := v.primitive;
      assert Primitives.KindOf(p) == er.primitiveParsers[classId];
      Primitives.PrimitiveRoundTrip(p, rest);
    } else {
      FieldsRoundTrip(er, v.classElement.fields, v.fields, rest, fuel - 1);
    }
  }

  /** The fields of an object read back in order. */
  lemma {:induction false} FieldsRoundTrip(er: EventResolver, fields: seq<FieldElement>, vs: seq<Value>, rest: seq<Byte>, fuel: nat)
    requires |fields| == |vs|
    requires forall i :: 0 <= i < |vs| ==> TypedField(er, fields[i], vs[i]) && Writable(vs[i]) && FitsFuel(vs[i], fuel)
    ensures ParseFields(er, EncodeAll(vs) + rest, fields, fuel) == Ok((vs, rest))
    decreases vs, 4
  {
    if |vs| > 0 {
      var head, tail := EncodeValue(vs[0]), EncodeAll(vs[1..]);
      FieldRoundTrip(er, fields[0], vs[0], tail + rest, fuel);
      assert forall i :: 1 <= i < |vs| ==> vs[1..][i - 1] == vs[i] && fields[1..][i - 1] == fields[i];
      FieldsRoundTrip(er, fields[1..], vs[1..], rest, fuel);
      FieldsStep(er, fields, vs, rest, fuel, head, tail);
    } else {
      assert EncodeAll(vs) + rest == rest;
    }
  }

  /** The first field read from its bytes, then the rest of the loop from the bytes after them. */
  lemma FieldsStep(er: EventResolver, fields: seq<FieldElement>, vs: seq<Value>, rest: seq<Byte>, fuel: nat, head: seq<Byte>, tail: seq<Byte>)
    requires |fields| > 0 && |vs| > 0
    requires ParseField(er, head + (tail + rest), fields[0], fuel) == Ok((vs[0], tail + rest))
    requires ParseFields(er, tail + rest, fields[1..], fuel) == Ok((vs[1..], rest))
    ensures ParseFields(er, (head + tail) + rest, fields, fuel) == Ok((vs, rest))
  {
    ConcatAssoc(head, tail, rest);
    assert [vs[0]] + vs[1..] == vs;
  }

  /** The first element read from its bytes, then the rest of the loop from the bytes after them. */
  lemma ElementsStep(er: EventResolver, f: FieldElement, es: seq<Value>, rest: seq<Byte>, fuel: nat, head: seq<Byte>, tail: seq<Byte>)
    requires |es| > 0
    requires ParseFieldSingle(er, head + (tail + rest), f, fuel) == Ok((es[0], tail + rest))
    requires ParseElements(er, tail + rest, f, |es| - 1, fuel) == Ok((es[1..], rest))
    ensures ParseElements(er, (head + tail) + rest, f, |es|, fuel) == Ok((es, rest))
  {
    ConcatAssoc(head, tail, rest);
    assert [es[0]] + es[1..] == es;
  }

  /** One field's value reads back. */
  lemma {:induction false} FieldRoundTrip(er: EventResolver, f: FieldElement, v: Value, rest: seq<Byte>, fuel: nat)
    requires TypedField(er, f, v) && Writable(v) && FitsFuel(v, fuel)
    ensures ParseField(er, EncodeValue(v) + rest, f, fuel) == Ok((v, rest))
    decreases v, 3
  {
    if IsArrayType(f) {
      var es := v.elements;
      ConcatAssoc(EncodeI32(|es|), EncodeAll(es), rest);
      RoundTripI32(|es|, EncodeAll(es) + rest);
      ElementsRoundTrip(er, f, es, rest, fuel);
    } else {
      SingleRoundTrip(er, f, v, rest, fuel);
    }
  }

  /** The elements of an array read back in order. */
  lemma {:induction false} ElementsRoundTrip(er: EventResolver, f: FieldElement, es: seq<Value>, rest: seq<Byte>, fuel: nat)
    requires forall i :: 0 <= i < |es| ==> TypedSingle(er, f, es[i]) && Writable(es[i]) && FitsFuel(es[i], fuel)
    ensures ParseElements(er, EncodeAll(es) + rest, f, |es|, fuel) == Ok((es, rest))
    decreases es, 2
  {
    if |es| > 0 {
      ElementsSplit(er, f, es, fuel);
      var head, tail := EncodeValue(es[0]), EncodeAll(es[1..]);
      SingleRoundTrip(er, f, es[0], tail + rest, fuel);
      ElementsRoundTrip(er, f, es[1..], rest, fuel);
      ElementsStep(er, f, es, rest, fuel, head, tail);
    } else {
      assert EncodeAll(es) + rest == rest;
    }
  }

  /** The first element and the others meet the loop's requirements, and the bytes are the first element's, then the others'. */
  lemma ElementsSplit(er: EventResolver, f: FieldElement, es: seq<Value>, fuel: nat)
    requires |es| > 0
    requires forall i :: 0 <= i < |es| ==> TypedSingle(er, f, es[i]) && Writable(es[i]) && FitsFuel(es[i], fuel)
    ensures TypedSingle(er, f, es[0]) && Writable(es[0]) && FitsFuel(es[0], fuel)
    ensures forall i :: 0 <= i < |es[1..]| ==> TypedSingle(er, f, es[1..][i]) && Writable(es[1..][i]) && FitsFuel(es[1..][i], fuel)
    ensures EncodeAll(es) == EncodeValue(es[0]) + EncodeAll(es[1..])
  {
    assert forall i :: 1 <= i < |es| ==> es[1..][i - 1] == es[i];
  }

  /** One single value reads back: a pool reference as its index, anything else as a value of the field's type. */
  lemma {:induction false} SingleRoundTrip(er: EventResolver, f: FieldElement, v: Value, rest: seq<Byte>, fuel: nat)
    requires TypedSingle(er, f, v) && Writable(v) && FitsFuel(v, fuel)
    ensures ParseFieldSingle(er, EncodeValue(v) + rest, f, fuel) == Ok((v, rest))
    decreases v, 1
  {
    if f.constantPool.Some? {
      RoundTripSigned(v.constantIndex, rest);
    } else {
      ValueRoundTrip(er, f.typeId, v, rest, fuel);
    }
  }

  // Pool values

  /** The value parser handed to `resolve_constants`: `parse_value` under the group's class id. */
  function PoolValueParser(er: EventResolver, fuel: nat): ConstantPool.ValueParser<Value>
  {
    (s: seq<Byte>, classId: I64) => ParseValue(er, s, classId, fuel)
  }

  /** One pool's groups, each value decoded under its group's class id. */
  function ResolvePool(er: EventResolver, fuel: nat): ConstantPool.ConstantPoolEvent -> Result<seq<Group>>
  {
    (ev: ConstantPool.ConstantPoolEvent) => ConstantPool.ResolveConstants(PoolValueParser(er, fuel), ev)
  }

  /**
   * `constant_pool_values`: every pool resolved and merged in order, and
   * the string class id looked up in the class map's iteration `order`.
   */
  function ConstantPoolValuesOf(er: EventResolver, order: seq<I64>, fuel: nat): (r: Result<ConstantPoolValues>)
    ensures r.Ok? <==> Collect(ResolvePool(er, fuel), er.constantPools).Ok?
    ensures r.Err? ==> r.error == Collect(ResolvePool(er, fuel), er.constantPools).error
    ensures r.Ok? ==> r.value.stringClassId == ClassId(er, order, "java.lang.String")
    ensures r.Ok? ==> r.value.inner == InsertGroups(map[], Flatten(Collect(ResolvePool(er, fuel), er.constantPools).value))
  {
    MergeIsCollect(ResolvePool(er, fuel), er.constantPools, map[]);
    var inner :- MergePools(ResolvePool(er, fuel), er.constantPools, map[]);
    Ok(ConstantPoolValues(inner, ClassId(er, order, "java.lang.String")))
  }

  /**
   * A lookup in the resolved table finds the last pair for `(classId,
   * index)` over all pools in order; with none it is null for index 0 and
   * missing otherwise.
   */
  lemma ConstantPoolLookup(er: EventResolver, order: seq<I64>, fuel: nat, classId: I64, index: I64)
    requires ConstantPoolValuesOf(er, order, fuel).Ok?
    ensures var last := LastIn(Flatten(Collect(ResolvePool(er, fuel), er.constantPools).value), classId, index);
            Get(ConstantPoolValuesOf(er, order, fuel).value, classId, index)
            == (if last.Some? then Present(last.value) else if index == 0 then Null else Missing)
  {
    GetAfterMerge(ResolvePool(er, fuel), er.constantPools, ClassId(er, order, "java.lang.String"), classId, index);
  }
}
