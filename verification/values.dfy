/**
 * Decoded values and the constant-pool value table of `resolver.rs`:
 * lookups with their null/missing distinction, the mapped and recursive
 * lookups built on them, and the merge of resolved pools into one table.
 */
module Values {
  import opened Ints
  import opened Errors
  import Primitives
  import MetadataElements

  /**
   * A decoded value. A field read from the constant pool is kept as a
   * reference (class id, constant index) and is not looked up.
   */
  datatype Value =
    | PrimitiveValue(primitive: Primitives.Primitive)
    | Object(classElement: MetadataElements.ClassElement, fields: seq<Value>)
    | Array(elements: seq<Value>)
    | ConstantPoolRef(classId: I64, constantIndex: I64)

  /**
   * The outcome of a pool lookup: index 0 with no entry is an explicit
   * null, any other absent index is missing. The same shape serves
   * `ConstantValue`, `ConstantValueMapped` and `ResolvedConstantValue`.
   */
  datatype Constant<+T> = Null | Missing | Present(value: T)

  /** Pool values by class id and then by constant index, with the class id of `java.lang.String` when known. */
  datatype ConstantPoolValues = ConstantPoolValues(inner: map<I64, map<I64, Value>>, stringClassId: Option<I64>)

  /** The table holds an entry under `(classId, index)`. */
  predicate Stored(inner: map<I64, map<I64, Value>>, classId: I64, index: I64)
  {
    classId in inner && index in inner[classId]
  }

  /** `ConstantPoolValues::get`. */
  function Get(cp: ConstantPoolValues, classId: I64, index: I64): (r: Constant<Value>)
    ensures r.Present? <==> Stored(cp.inner, classId, index)
    ensures r.Present? ==> r.value == cp.inner[classId][index]
    ensures r.Null? <==> !Stored(cp.inner, classId, index) && index == 0
    ensures r.Missing? <==> !Stored(cp.inner, classId, index) && index != 0
  {
    if classId in cp.inner then
      var x := cp.inner[classId];
      if index in x then Present(x[index])
      else if index == 0 then Null
      else Missing
    else if index == 0 then Null
    else Missing
  }

  /** Null and missing pass through; only an entry is transformed. */
  function MapConstant<T, U>(c: Constant<T>, f: T -> U): (r: Constant<U>)
    ensures r.Null? <==> c.Null?
    ensures r.Missing? <==> c.Missing?
    ensures r.Present? <==> c.Present?
    ensures r.Present? ==> r.value == f(c.value)
  {
    match c
    case Null => Null
    case Missing => Missing
    case Present(v) => Present(f(v))
  }

  /**
   * `get_recursive`: the entry with its own references expanded by
   * `resolve`, which stands for `Value::resolve_constants` against this table.
   */
  function GetRecursive<R>(cp: ConstantPoolValues, resolve: Value -> R, classId: I64, index: I64): (r: Constant<R>)
    ensures r.Present? <==> Stored(cp.inner, classId, index)
    ensures r.Present? ==> r.value == resolve(cp.inner[classId][index])
    ensures r.Null? <==> !Stored(cp.inner, classId, index) && index == 0
    ensures r.Missing? <==> !Stored(cp.inner, classId, index) && index != 0
  {
    MapConstant(Get(cp, classId, index), resolve)
  }

  /** `get_mapped`: the entry passed through a fallible conversion. */
  function GetMapped<T>(cp: ConstantPoolValues, classId: I64, index: I64, f: Value -> Result<T>): (r: Constant<Result<T>>)
    ensures r.Present? <==> Stored(cp.inner, classId, index)
    ensures r.Present? ==> r.value == f(cp.inner[classId][index])
    ensures r.Null? <==> !Stored(cp.inner, classId, index) && index == 0
    ensures r.Missing? <==> !Stored(cp.inner, classId, index) && index != 0
  {
    MapConstant(Get(cp, classId, index), f)
  }

  /** The conversion `get_string` applies: only a string primitive has text. */
  function StringOf(v: Value): (r: Result<string>)
    ensures r.Ok? <==> v.PrimitiveValue? && v.primitive.String?
    ensures r.Ok? ==> v == PrimitiveValue(Primitives.String(r.value))
    ensures !v.PrimitiveValue? ==> r == Err(Deserialize("purported string value not a primitive"))
    ensures v.PrimitiveValue? && !v.primitive.String? ==> r == Err(Deserialize("purported string value not a string primitive"))
  {
    match v
    case PrimitiveValue(p) =>
      if p.String? then Ok(p.text)
      else Err(Deserialize("purported string value not a string primitive"))
    case _ => Err(Deserialize("purported string value not a primitive"))
  }

  /** `get_string`: a lookup under the string class; missing when that class is unknown. */
  function GetString(cp: ConstantPoolValues, index: I64): (r: Constant<Result<string>>)
    ensures cp.stringClassId.None? ==> r.Missing?
    ensures r.Present? <==> cp.stringClassId.Some? && Stored(cp.inner, cp.stringClassId.value, index)
    ensures r.Present? ==> r.value == StringOf(cp.inner[cp.stringClassId.value][index])
    ensures r.Null? <==> cp.stringClassId.Some? && !Stored(cp.inner, cp.stringClassId.value, index) && index == 0
  {
    match cp.stringClassId
    case Some(c) => GetMapped(cp, c, index, StringOf)
    case None => Missing
  }

  /** A stored string primitive is returned as its text. */
  lemma GetStoredString(cp: ConstantPoolValues, c: I64, index: I64, text: string)
    requires cp.stringClassId == Some(c)
    requires Stored(cp.inner, c, index) && cp.inner[c][index] == PrimitiveValue(Primitives.String(text))
    ensures GetString(cp, index) == Present(Ok(text))
  {
  }

  // Merging resolved pools

  /** One class's values from one pool, in pool order. */
  type Group = (I64, seq<(I64, Value)>)

  /** `entry.insert(index, v)` for each pair, in order. */
  function InsertValues(m: map<I64, Value>, values: seq<(I64, Value)>): map<I64, Value>
    decreases |values|
  {
    if |values| == 0 then m
    else
      var last := values[|values| - 1];
      InsertValues(m, values[..|values| - 1])[last.0 := last.1]
  }

  /** `inner.entry(class_id).or_default()`, then the group's inserts. */
  function InsertGroup(inner: map<I64, map<I64, Value>>, g: Group): map<I64, map<I64, Value>>
  {
    var entry := if g.0 in inner then inner[g.0] else map[];
    inner[g.0 := InsertValues(entry, g.1)]
  }

  /** The groups inserted one after another. */
  function InsertGroups(inner: map<I64, map<I64, Value>>, groups: seq<Group>): map<I64, map<I64, Value>>
    decreases |groups|
  {
    if |groups| == 0 then inner
    else InsertGroup(InsertGroups(inner, groups[..|groups| - 1]), groups[|groups| - 1])
  }

  /** The value of the last pair for `index`: no later pair has that index. */
  function LastValue(values: seq<(I64, Value)>, index: I64): (r: Option<Value>)
    ensures r.None? <==> forall k :: 0 <= k < |values| ==> values[k].0 != index
    ensures r.Some? ==> exists k :: 0 <= k < |values| && values[k] == (index, r.value) && forall j :: k < j < |values| ==> values[j].0 != index
    decreases |values|
  {
    if |values| == 0 then None
    else
      var n := |values| - 1;
      if values[n].0 == index then Some(values[n].1)
      else
        var r := LastValue(values[..n], index);
        assert forall k :: 0 <= k < n ==> values[..n][k] == values[k];
        if r.Some? then
          var k :| 0 <= k < n && values[..n][k] == (index, r.value) && forall j :: k < j < n ==> values[..n][j].0 != index;
          assert values[k] == (index, r.value) && forall j :: k < j < |values| ==> values[j].0 != index;
          r
        else r
  }

  /** The value of the last pair for `(classId, index)` across the groups, later groups first. */
  function LastIn(groups: seq<Group>, classId: I64, index: I64): (r: Option<Value>)
    ensures r.None? <==> forall k :: 0 <= k < |groups| && groups[k].0 == classId ==> LastValue(groups[k].1, index).None?
    decreases |groups|
  {
    if |groups| == 0 then None
    else
      var n := |groups| - 1;
      if groups[n].0 == classId && LastValue(groups[n].1, index).Some? then LastValue(groups[n].1, index)
      else
        var r := LastIn(groups[..n], classId, index);
        assert forall k :: 0 <= k < n ==> groups[..n][k] == groups[k];
        r
  }

  /** Inserting pairs: an index is present iff some pair or the start had it, and the last pair wins. */
  lemma {:induction false} InsertValuesLookup(m: map<I64, Value>, values: seq<(I64, Value)>, index: I64)
    ensures index in InsertValues(m, values) <==> LastValue(values, index).Some? || index in m
    ensures LastValue(values, index).Some? ==> InsertValues(m, values)[index] == LastValue(values, index).value
    ensures LastValue(values, index).None? && index in m ==> InsertValues(m, values)[index] == m[index]
    decreases |values|
  {
    if |values| > 0 {
      InsertValuesLookup(m, values[..|values| - 1], index);
    }
  }

  /** Inserting groups: the last pair for `(classId, index)` in list order wins; otherwise the start is kept. */
  lemma {:induction false} InsertGroupsLookup(inner: map<I64, map<I64, Value>>, groups: seq<Group>, classId: I64, index: I64)
    ensures Stored(InsertGroups(inner, groups), classId, index) <==> LastIn(groups, classId, index).Some? || Stored(inner, classId, index)
    ensures LastIn(groups, classId, index).Some? ==> InsertGroups(inner, groups)[classId][index] == LastIn(groups, classId, index).value
    ensures LastIn(groups, classId, index).None? && Stored(inner, classId, index) ==> InsertGroups(inner, groups)[classId][index] == inner[classId][index]
    decreases |groups|
  {
    if |groups| > 0 {
      var n := |groups| - 1;
      var before := InsertGroups(inner, groups[..n]);
      InsertGroupsLookup(inner, groups[..n], classId, index);
      if groups[n].0 == classId {
        var entry := if classId in before then before[classId] else map[];
        InsertValuesLookup(entry, groups[n].1, index);
      }
    }
  }

  /** Inserting `a` and then `b` is inserting `a + b`. */
  lemma {:induction false} InsertGroupsConcat(inner: map<I64, map<I64, Value>>, a: seq<Group>, b: seq<Group>)
    ensures InsertGroups(InsertGroups(inner, a), b) == InsertGroups(inner, a + b)
    decreases |b|
  {
    if |b| == 0 {
      assert a + b == a;
    } else {
      var n := |b| - 1;
      InsertGroupsConcat(inner, a, b[..n]);
      assert (a + b)[..|a + b| - 1] == a + b[..n];
    }
  }

  /** The groups of all pools, one pool after another. */
  function Flatten(gss: seq<seq<Group>>): (r: seq<Group>)
    ensures |gss| > 0 ==> r == gss[0] + Flatten(gss[1..])
  {
    if |gss| == 0 then [] else gss[0] + Flatten(gss[1..])
  }

  /**
   * The loop of `constant_pool_values`: each pool's groups are resolved
   * and inserted before the next pool is resolved; the first pool that
   * fails to resolve ends it.
   */
  function MergePools<P>(resolve: P -> Result<seq<Group>>, pools: seq<P>, inner: map<I64, map<I64, Value>>): (r: Result<map<I64, map<I64, Value>>>)
    decreases |pools|
  {
    if |pools| == 0 then Ok(inner)
    else
      match resolve(pools[0])
      case Err(e) => Err(e)
      case Ok(groups) => MergePools(resolve, pools[1..], InsertGroups(inner, groups))
  }

  /** Merging is resolving every pool first, then inserting all their groups in order. */
  lemma {:induction false} MergeIsCollect<P>(resolve: P -> Result<seq<Group>>, pools: seq<P>, inner: map<I64, map<I64, Value>>)
    ensures Collect(resolve, pools).Err? ==> MergePools(resolve, pools, inner) == Err(Collect(resolve, pools).error)
    ensures Collect(resolve, pools).Ok? ==> MergePools(resolve, pools, inner) == Ok(InsertGroups(inner, Flatten(Collect(resolve, pools).value)))
    decreases |pools|
  {
    if |pools| > 0 {
      match resolve(pools[0])
      case Err(e) =>
      case Ok(groups) =>
        MergeIsCollect(resolve, pools[1..], InsertGroups(inner, groups));
        var c := Collect(resolve, pools[1..]);
        if c.Ok? {
          InsertGroupsConcat(inner, groups, Flatten(c.value));
          assert Collect(resolve, pools).value == [groups] + c.value;
          assert ([groups] + c.value)[1..] == c.value;
        }
    }
  }

  /**
   * After a merge into an empty table, a lookup finds the value of the
   * last pair for `(classId, index)` over all pools in order, and null or
   * missing when no pool has one.
   */
  lemma GetAfterMerge<P>(resolve: P -> Result<seq<Group>>, pools: seq<P>, stringClassId: Option<I64>, classId: I64, index: I64)
    requires Collect(resolve, pools).Ok?
    ensures MergePools(resolve, pools, map[]).Ok?
    ensures var cp := ConstantPoolValues(MergePools(resolve, pools, map[]).value, stringClassId);
            var last := LastIn(Flatten(Collect(resolve, pools).value), classId, index);
            Get(cp, classId, index) == (if last.Some? then Present(last.value) else if index == 0 then Null else Missing)
  {
    MergeIsCollect(resolve, pools, map[]);
    InsertGroupsLookup(map[], Flatten(Collect(resolve, pools).value), classId, index);
  }
}
