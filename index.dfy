/** The two transforms of the library: `parse` turns URL search parameters into a
    record and hands it to the schema's validator, `serialize` turns a record into
    URL search parameters, one entry per field or, for an array field, one entry
    per element. Names are strings in the library; the definitions and lemmas that
    only compare names are stated for any name type `K`, and the methods and the
    as-written definitions, which depend on particular names, for strings. */
module Index {
  import opened SearchParams
  import opened JsString

  // ---------------------------------------------------------------------------
  // parse
  // ---------------------------------------------------------------------------

  /** The object `parse` hands to the validator: starting from an empty object,
      each entry in turn sets its name to its value. */
  function ObjectOf<K(==)>(input: seq<Entry<K>>): map<K, string>
  {
    if input == [] then map[]
    else
      var e := input[|input| - 1];
      ObjectOf(input[..|input| - 1])[e.0 := e.1]
  }

  /** One step of the fold: the entry appended last overrides its name. */
  lemma ObjectOfSnoc<K>(s: seq<Entry<K>>, e: Entry<K>)
    ensures ObjectOf(s + [e]) == ObjectOf(s)[e.0 := e.1]
  {
    assert (s + [e])[..|s|] == s;
  }

  /** The fold agrees with last-occurrence lookup: a name is in the object
      exactly when it occurs in the input, and then holds the value of its last
      entry. */
  lemma {:induction false} ObjectOfLastValue<K>(input: seq<Entry<K>>, k: K)
    ensures k in ObjectOf(input) <==> k in Keys(input)
    ensures k in ObjectOf(input) ==> ObjectOf(input)[k] == LastValue(input, k).value
  {
    if input != [] {
      var s, e := input[..|input| - 1], input[|input| - 1];
      assert input == s + [e];
      ObjectOfLastValue(s, k);
      KeysSnoc(s, e);
      LastIndexSnoc(s, e, k);
    }
  }

  /** The object's names are exactly the input's names. */
  lemma ObjectOfKeys<K>(input: seq<Entry<K>>)
    ensures ObjectOf(input).Keys == Keys(input)
  {
    forall k ensures k in ObjectOf(input) <==> k in Keys(input) {
      ObjectOfLastValue(input, k);
    }
  }

  /** The last occurrence of a name wins: an entry that no later entry renames
      gives its name's value in the object. */
  lemma ObjectOfLastWins<K>(input: seq<Entry<K>>, i: nat)
    requires i < |input|
    requires forall j :: i < j < |input| ==> input[j].0 != input[i].0
    ensures input[i].0 in ObjectOf(input) && ObjectOf(input)[input[i].0] == input[i].1
  {
    var k := input[i].0;
    assert k in Keys(input);
    ObjectOfLastValue(input, k);
    assert LastIndex(input, k) == i;
  }

  /** A name is in the object exactly when `getAll` finds it, and then has the
      last value `getAll` gives. */
  lemma ObjectOfGetAll<K>(input: seq<Entry<K>>, k: K)
    ensures var all := GetAll(input, k);
      (k in ObjectOf(input) <==> all != []) &&
      (all != [] ==> ObjectOf(input)[k] == all[|all| - 1])
  {
    ObjectOfLastValue(input, k);
    LastValueIsLastOfGetAll(input, k);
  }

  /** Entries later in the input override earlier ones, name by name: the object
      for a concatenation is the first object updated by the second. */
  lemma {:induction false} ObjectOfAppend<K>(s: seq<Entry<K>>, t: seq<Entry<K>>)
    ensures ObjectOf(s + t) == ObjectOf(s) + ObjectOf(t)
    decreases |t|
  {
    if t == [] {
      assert s + t == s;
    } else {
      var t', e := t[..|t| - 1], t[|t| - 1];
      assert t == t' + [e];
      assert s + t == (s + t') + [e];
      ObjectOfAppend(s, t');
      ObjectOfSnoc(s + t', e);
      ObjectOfSnoc(t', e);
    }
  }

  /** `parse(schema, input)`: folds the entries into a fresh object, each entry
      overwriting its name, and returns what the validator `schema.parse` makes
      of that object. The validator is the schema library's and is a parameter
      here. */
  method Parse<T>(validate: map<string, string> -> T, input: seq<Entry<string>>) returns (result: T)
    ensures result == validate(ObjectOf(input))
  {
    var obj: map<string, string> := map[];
    var i := 0;
    while i < |input|
      invariant 0 <= i <= |input|
      invariant obj == ObjectOf(input[..i])
    {
      var (key, value) := input[i];
      assert input[..i + 1] == input[..i] + [input[i]];
      ObjectOfSnoc(input[..i], input[i]);
      obj := obj[key := value];
      i := i + 1;
    }
    assert input[..i] == input;
    result := validate(obj);
  }

  /** The one name whose assignment on a plain object does not create a property:
      `obj["__proto__"] = value` calls the setter inherited from
      `Object.prototype`, which ignores a value that is not an object. */
  const ProtoKey := "__proto__"

  /** The assignment `obj[key] = value` on an object literal, as JavaScript runs it. */
  function AssignAsWritten(obj: map<string, string>, key: string, value: string): map<string, string>
  {
    if key == ProtoKey then obj else obj[key := value]
  }

  /** The loop of `parse` as JavaScript runs it on `const obj = {}`. */
  function ObjectAsWritten(input: seq<Entry<string>>): map<string, string>
  {
    if input == [] then map[]
    else
      var e := input[|input| - 1];
      AssignAsWritten(ObjectAsWritten(input[..|input| - 1]), e.0, e.1)
  }

  /** As written, the object loses exactly the `__proto__` name and nothing else. */
  lemma {:induction false} ObjectAsWrittenDropsProto(input: seq<Entry<string>>)
    ensures ObjectAsWritten(input) == ObjectOf(input) - {ProtoKey}
  {
    if input != [] {
      var s, e := input[..|input| - 1], input[|input| - 1];
      assert input == s + [e];
      ObjectAsWrittenDropsProto(s);
      ObjectOfSnoc(s, e);
      var before := ObjectOf(s);
      assert ObjectAsWritten(input) == AssignAsWritten(before - {ProtoKey}, e.0, e.1);
      UpdateThenRemove(before, e.0, e.1, ProtoKey);
    }
  }

  /** Updating a name and then removing `p` is removing `p` first and then
      updating, except that an update of `p` itself is then skipped. */
  lemma UpdateThenRemove<K, V>(m: map<K, V>, k: K, v: V, p: K)
    ensures m[k := v] - {p} == if k == p then m - {p} else (m - {p})[k := v]
  {
  }

  /** The query `__proto__=x`: its one name never reaches the validator. */
  lemma ProtoEntryIsLost()
    ensures var input := [(ProtoKey, "x")];
      ProtoKey in Keys(input) && ObjectAsWritten(input) == map[] &&
      ObjectOf(input) == map[ProtoKey := "x"]
  {
    var input := [(ProtoKey, "x")];
    assert input[0].0 == ProtoKey;
    ObjectAsWrittenDropsProto(input);
    assert ObjectOf(input).Keys == {ProtoKey};
  }

  // ---------------------------------------------------------------------------
  // serialize
  // ---------------------------------------------------------------------------

  /** A schema's `_def.typeName`, as far as `serialize` tells type names apart:
      `"ZodArray"` or any other. */
  datatype TypeName = ZodArray | OtherTypeName

  /** `schema.shape` as `serialize` consults it: each field name mapped to its
      schema's type name. */
  type Shape<K> = map<K, TypeName>

  /** A property `for (const key in values)` visits, in visiting order, with
      whether `Object.hasOwn(values, key)` holds of it. */
  datatype Prop<K> = Prop(key: K, value: Value, own: bool)

  /** `schemaType && schemaType._def.typeName === "ZodArray"`. */
  predicate IsArrayField<K>(shape: Shape<K>, key: K) {
    key in shape && shape[key] == ZodArray
  }

  /** A `for…in` loop visits each name once. */
  predicate DistinctKeys<K(==)>(values: seq<Prop<K>>) {
    forall i, j :: 0 <= i < j < |values| ==> values[i].key != values[j].key
  }

  /** The record conforms to its inferred type: an own field whose schema is an
      array holds an array. */
  predicate FitsShape<K>(shape: Shape<K>, p: Prop<K>) {
    p.own && IsArrayField(shape, p.key) ==> p.value.Arr?
  }

  /** Every visited property conforms to its inferred type. */
  predicate WellTyped<K>(shape: Shape<K>, values: seq<Prop<K>>) {
    forall i :: 0 <= i < |values| ==> FitsShape(shape, values[i])
  }

  /** The values `serialize` appends for one visited property, in order. */
  function Rendered<K>(shape: Shape<K>, p: Prop<K>): seq<string>
    requires FitsShape(shape, p)
  {
    if !p.own then []
    else if IsArrayField(shape, p.key) then RenderEach(p.value.items)
    else [Render(p.value)]
  }

  /** The entries `serialize` appends for one visited property. */
  function FieldEntries<K>(shape: Shape<K>, p: Prop<K>): seq<Entry<K>>
    requires FitsShape(shape, p)
  {
    if !p.own then []
    else if IsArrayField(shape, p.key) then ArrayEntries(p.key, p.value.items)
    else [(p.key, Render(p.value))]
  }

  /** The entries the inner loop appends for an array field: one per element, in
      element order, each named `key`. */
  function ArrayEntries<K>(key: K, items: seq<Value>): (r: seq<Entry<K>>)
    ensures |r| == |items|
  {
    if items == [] then []
    else ArrayEntries(key, items[..|items| - 1]) + [(key, Render(items[|items| - 1]))]
  }

  /** Every entry of an array field carries the field's name. */
  lemma {:induction false} ArrayEntriesKeys<K>(key: K, items: seq<Value>)
    ensures forall t :: 0 <= t < |items| ==> ArrayEntries(key, items)[t].0 == key
  {
    if items != [] {
      ArrayEntriesKeys(key, items[..|items| - 1]);
    }
  }

  /** `getAll` of an array field's entries is `String` of each element under the
      field's name, and nothing under any other. */
  lemma {:induction false} GetAllArrayEntries<K>(key: K, items: seq<Value>, k: K)
    ensures GetAll(ArrayEntries(key, items), k) == if key == k then RenderEach(items) else []
  {
    if items != [] {
      var init := items[..|items| - 1];
      var r := ArrayEntries(key, items);
      assert r[..|r| - 1] == ArrayEntries(key, init);
      GetAllArrayEntries(key, init, k);
      if key == k {
        assert RenderEach(items) == RenderEach(init) + [Render(items[|items| - 1])];
      }
    }
  }

  /** The entries `serialize` appends, property by property in visiting order. */
  function Blocks<K>(shape: Shape<K>, values: seq<Prop<K>>): seq<seq<Entry<K>>>
    requires WellTyped(shape, values)
  {
    seq(|values|, i requires 0 <= i < |values| => FieldEntries(shape, values[i]))
  }

  /** What `serialize` returns. */
  function Serialized<K>(shape: Shape<K>, values: seq<Prop<K>>): seq<Entry<K>>
    requires WellTyped(shape, values)
  {
    Concat(Blocks(shape, values))
  }

  /** `serialize(schema, values, defaultValues)`: appends to a fresh parameter
      list, for each own property in visiting order, one entry per element when
      the field's schema is an array and one entry `String(value)` otherwise.
      `defaultValues` is never read. */
  method Serialize(shape: Shape<string>, values: seq<Prop<string>>, defaultValues: Option<map<string, Value>>)
      returns (params: seq<Entry<string>>)
    requires WellTyped(shape, values)
    ensures params == Serialized(shape, values)
  {
    ghost var bs := Blocks(shape, values);
    params := [];
    var i := 0;
    while i < |values|
      invariant 0 <= i <= |values|
      invariant params == Concat(bs[..i])
    {
      var p := values[i];
      ghost var done, fe := params, FieldEntries(shape, p);
      if p.own {
        var value := p.value;
        if IsArrayField(shape, p.key) {
          var items := value.items;
          var j := 0;
          while j < |items|
            invariant 0 <= j <= |items|
            invariant params == done + ArrayEntries(p.key, items[..j])
          {
            assert items[..j + 1][..j] == items[..j];
            params := params + [(p.key, Render(items[j]))];
            j := j + 1;
          }
          assert items[..j] == items;
        } else {
          params := params + [(p.key, Render(value))];
        }
      } else {
        assert params == done + fe;
      }
      ConcatTakeSnoc(bs, i);
      i := i + 1;
    }
    assert bs[..i] == bs;
  }

  /** Each block holds only its own property's name, and `getAll` of that name
      is the values `serialize` renders for the property. */
  lemma BlockGetAll<K>(shape: Shape<K>, values: seq<Prop<K>>, j: nat, k: K)
    requires WellTyped(shape, values) && j < |values|
    ensures GetAll(Blocks(shape, values)[j], k) == if values[j].key == k then Rendered(shape, values[j]) else []
  {
    if values[j].own && IsArrayField(shape, values[j].key) {
      GetAllArrayEntries(values[j].key, values[j].value.items, k);
    }
  }

  /** Per field, in the serialized parameters: one entry per element, in element
      order, for an own array field (none for an empty array); exactly one entry
      `String(value)` for any other own field, whether or not the shape names it;
      nothing for an inherited property. */
  lemma SerializedField<K>(shape: Shape<K>, values: seq<Prop<K>>, i: nat)
    requires WellTyped(shape, values) && DistinctKeys(values) && i < |values|
    ensures var p, out := values[i], Serialized(shape, values);
      (p.own && IsArrayField(shape, p.key) ==> GetAll(out, p.key) == RenderEach(p.value.items)) &&
      (p.own && !IsArrayField(shape, p.key) ==> GetAll(out, p.key) == [Render(p.value)]) &&
      (!p.own ==> GetAll(out, p.key) == [])
  {
    var bs, k := Blocks(shape, values), values[i].key;
    forall j | 0 <= j < |bs| && j != i
      ensures GetAll(bs[j], k) == []
    {
      BlockGetAll(shape, values, j, k);
    }
    GetAllConcatOne(bs, i, k);
    BlockGetAll(shape, values, i, k);
  }

  /** A name no visited property has gets no entry. */
  lemma SerializedAbsent<K>(shape: Shape<K>, values: seq<Prop<K>>, k: K)
    requires WellTyped(shape, values)
    requires forall i :: 0 <= i < |values| ==> values[i].key != k
    ensures GetAll(Serialized(shape, values), k) == []
  {
    var bs := Blocks(shape, values);
    forall j | 0 <= j < |bs|
      ensures GetAll(bs[j], k) == []
    {
      BlockGetAll(shape, values, j, k);
    }
    GetAllConcatNone(bs, k);
  }

  /** The names in the serialized parameters are exactly the own properties that
      contribute an entry: none is invented, and only an own array field holding
      an empty array is absent. */
  lemma SerializedKeys<K>(shape: Shape<K>, values: seq<Prop<K>>)
    requires WellTyped(shape, values) && DistinctKeys(values)
    ensures forall k :: k in Keys(Serialized(shape, values)) ==>
      exists i :: 0 <= i < |values| && values[i].key == k && values[i].own
    ensures forall i :: 0 <= i < |values| && values[i].own ==>
      (values[i].key in Keys(Serialized(shape, values)) <==>
       !(IsArrayField(shape, values[i].key) && values[i].value.items == []))
  {
    var out := Serialized(shape, values);
    forall k | k in Keys(out)
      ensures exists i :: 0 <= i < |values| && values[i].key == k && values[i].own
    {
      GetAllEmpty(out, k);
      if forall i :: 0 <= i < |values| ==> values[i].key != k {
        SerializedAbsent(shape, values, k);
        assert false;
      }
      var i :| 0 <= i < |values| && values[i].key == k;
      SerializedField(shape, values, i);
    }
    forall i | 0 <= i < |values| && values[i].own
      ensures values[i].key in Keys(out) <==>
        !(IsArrayField(shape, values[i].key) && values[i].value.items == [])
    {
      GetAllEmpty(out, values[i].key);
      SerializedField(shape, values, i);
    }
  }

  /** The position of the first visited property named `k`, or `|values|`. */
  function PropIndex<K(==)>(values: seq<Prop<K>>, k: K): (r: nat)
    ensures r <= |values|
    ensures r < |values| ==> values[r].key == k
    ensures forall j :: 0 <= j < r ==> values[j].key != k
  {
    if values == [] then 0
    else if values[0].key == k then 0
    else 1 + PropIndex(values[1..], k)
  }

  /** The serialized parameters are grouped by property, in visiting order:
      an entry never comes from a property visited after that of a later entry. */
  lemma SerializedGrouped<K>(shape: Shape<K>, values: seq<Prop<K>>, a: nat, b: nat)
    requires WellTyped(shape, values) && DistinctKeys(values)
    requires a <= b < |Serialized(shape, values)|
    ensures var out := Serialized(shape, values);
      PropIndex(values, out[a].0) <= PropIndex(values, out[b].0) < |values|
  {
    var bs: seq<seq<Entry<K>>> := Blocks(shape, values);
    var rank: K -> nat := k => PropIndex(values, k);
    forall j: int, t: int | 0 <= j < |bs| && 0 <= t < |bs[j]|
      ensures rank(bs[j][t].0) == j
    {
      if values[j].own && IsArrayField(shape, values[j].key) {
        ArrayEntriesKeys(values[j].key, values[j].value.items);
      }
      assert bs[j][t].0 == values[j].key;
    }
    ConcatGrouped(bs, rank, a, b);
  }

  /** Parsing what `serialize` produced, one own field at a time: a field that
      produced entries comes back as the string of its last entry, so any field
      outside an array comes back as `String(value)` (a string field exactly) and
      an array field keeps only its last element; an empty array leaves no name. */
  lemma ParseOfSerializedField<K>(shape: Shape<K>, values: seq<Prop<K>>, i: nat)
    requires WellTyped(shape, values) && DistinctKeys(values)
    requires i < |values| && values[i].own
    ensures var k, obj := values[i].key, ObjectOf(Serialized(shape, values));
      (!IsArrayField(shape, k) ==> k in obj && obj[k] == Render(values[i].value)) &&
      (IsArrayField(shape, k) && values[i].value.items == [] ==> k !in obj) &&
      (IsArrayField(shape, k) && values[i].value.items != [] ==>
        k in obj && obj[k] == Render(values[i].value.items[|values[i].value.items| - 1]))
  {
    var k, out := values[i].key, Serialized(shape, values);
    SerializedField(shape, values, i);
    ObjectOfGetAll(out, k);
    if IsArrayField(shape, k) {
      var items := values[i].value.items;
      assert GetAll(out, k) == RenderEach(items);
      if items != [] {
        assert RenderEach(items)[|items| - 1] == Render(items[|items| - 1]);
      }
    } else {
      assert GetAll(out, k) == [Render(values[i].value)];
    }
  }

  /** Parsing what `serialize` produced invents no name: every name of the
      object is an own property of the record. */
  lemma ParseOfSerializedKeys<K>(shape: Shape<K>, values: seq<Prop<K>>)
    requires WellTyped(shape, values) && DistinctKeys(values)
    ensures forall k :: k in ObjectOf(Serialized(shape, values)) ==>
      exists i :: 0 <= i < |values| && values[i].key == k && values[i].own
  {
    SerializedKeys(shape, values);
    ObjectOfKeys(Serialized(shape, values));
  }

  /** How the as-written `serialize` ends: it returns parameters or throws a
      TypeError. */
  datatype Outcome<K> = Returned(params: seq<Entry<K>>) | ThrewTypeError

  /** The members of `Object.prototype` that every schema shape built from an
      object literal inherits. Each is truthy and has no `_def`. */
  const ObjectPrototypeKeys: set<string> := {
    "constructor", "hasOwnProperty", "isPrototypeOf", "propertyIsEnumerable",
    "toLocaleString", "toString", "valueOf", "__proto__", "__defineGetter__",
    "__defineSetter__", "__lookupGetter__", "__lookupSetter__"
  }

  /** `schemaShape[key]._def.typeName` throws: the shape has no such field, the
      lookup finds a member inherited from `inherited`, and `_def` of it is
      `undefined`. */
  predicate LookupThrows<K>(shape: Shape<K>, inherited: set<K>, p: Prop<K>) {
    p.own && p.key !in shape && p.key in inherited
  }

  /** `serialize` as JavaScript runs it over the first `n` properties, on a
      shape that inherits the members `inherited`. */
  function AsWrittenPrefix<K>(shape: Shape<K>, inherited: set<K>, values: seq<Prop<K>>, n: nat): Outcome<K>
    requires WellTyped(shape, values) && n <= |values|
  {
    if n == 0 then Returned([])
    else
      match AsWrittenPrefix(shape, inherited, values, n - 1)
      case ThrewTypeError => ThrewTypeError
      case Returned(params) =>
        if LookupThrows(shape, inherited, values[n - 1]) then ThrewTypeError
        else Returned(params + FieldEntries(shape, values[n - 1]))
  }

  /** `serialize` as JavaScript runs it. */
  function SerializedAsWritten(shape: Shape<string>, values: seq<Prop<string>>): Outcome<string>
    requires WellTyped(shape, values)
  {
    AsWrittenPrefix(shape, ObjectPrototypeKeys, values, |values|)
  }

  lemma {:induction false} AsWrittenPrefixThrows<K>(shape: Shape<K>, inherited: set<K>, values: seq<Prop<K>>, n: nat)
    requires WellTyped(shape, values) && n <= |values|
    ensures AsWrittenPrefix(shape, inherited, values, n).ThrewTypeError? <==>
      exists i :: 0 <= i < n && LookupThrows(shape, inherited, values[i])
    ensures AsWrittenPrefix(shape, inherited, values, n).Returned? ==>
      AsWrittenPrefix(shape, inherited, values, n).params == Concat(Blocks(shape, values)[..n])
  {
    if n > 0 {
      AsWrittenPrefixThrows(shape, inherited, values, n - 1);
      ConcatTakeSnoc(Blocks(shape, values), n - 1);
      if LookupThrows(shape, inherited, values[n - 1]) {
        assert exists i :: 0 <= i < n && LookupThrows(shape, inherited, values[i]);
      }
    }
  }

  /** As written, `serialize` throws exactly when some own property is named like
      an `Object.prototype` member that the shape lacks; otherwise it returns
      `Serialized`. */
  lemma SerializedAsWrittenThrows(shape: Shape<string>, values: seq<Prop<string>>)
    requires WellTyped(shape, values)
    ensures SerializedAsWritten(shape, values).ThrewTypeError? <==>
      exists i :: 0 <= i < |values| && LookupThrows(shape, ObjectPrototypeKeys, values[i])
    ensures SerializedAsWritten(shape, values).Returned? ==>
      SerializedAsWritten(shape, values).params == Serialized(shape, values)
  {
    AsWrittenPrefixThrows(shape, ObjectPrototypeKeys, values, |values|);
    assert Blocks(shape, values)[..|values|] == Blocks(shape, values);
  }

  /** The record `{toString: "x"}` under a schema without that field: as written
      `serialize` throws, where `toString=x` is the intended result. */
  lemma ToStringFieldThrows()
    ensures var values := [Prop("toString", Str("x"), true)];
      SerializedAsWritten(map[], values) == ThrewTypeError &&
      Serialized(map[], values) == [("toString", "x")]
  {
    var values := [Prop("toString", Str("x"), true)];
    var bs := Blocks(map[], values);
    assert bs == [[("toString", "x")]];
    assert bs[..0] == [];
  }
}
