/**
  The closed property schemas of specialized elements and the pure property
  logic that SpecializedTinkerVertex and SpecializedTinkerEdge share with
  their concrete subclasses: a schema names the keys an element may carry and
  the Java type of each; the element holds one field per key, null when the
  property is absent. Here the fields are a map from key to value, a key
  missing from the map being a null field.
*/
module Schema {
  import opened Wrappers
  import opened JavaLang

  /** The property values the modelled schemas use: Java String and Integer. */
  datatype Value = StrValue(s: JString) | IntValue(i: Int)

  datatype ValueType = StringType | IntegerType

  function TypeOf(v: Value): ValueType {
    match v
    case StrValue(_) => StringType
    case IntValue(_) => IntegerType
  }

  datatype Property = Property(key: JString, value: Value)

  /**
    The keys of a specialized element (its `specificKeys()`), each with the
    type of its field. `keyOrder` fixes the order in which the key set is
    iterated.
  */
  datatype PropertySchema = PropertySchema(keyOrder: seq<JString>, keyTypes: map<JString, ValueType>)

  datatype VertexSchema = VertexSchema(
    elementLabel: JString,
    properties: PropertySchema,
    allowedOutEdgeLabels: set<JString>,
    allowedInEdgeLabels: set<JString>)

  datatype EdgeSchema = EdgeSchema(elementLabel: JString, properties: PropertySchema)

  /** The property fields of an element: a key absent from the map is a null field. */
  type Fields = map<JString, Value>

  /** The key half of ElementHelper.validateProperty: a key must be non-empty and must not be hidden (start with '~').
      Its other half, the refusal of a null value, has no counterpart: a `Value` is never null. */
  predicate ValidPropertyKey(key: JString) {
    |key| > 0 && key[0] != '~'
  }

  predicate Distinct<T(==)>(s: seq<T>) {
    forall i, j :: 0 <= i < j < |s| ==> s[i] != s[j]
  }

  /** A schema lists every key once, lists exactly the typed keys, and every key is a legal property key. */
  predicate WellFormed(ps: PropertySchema) {
    && Distinct(ps.keyOrder)
    && (forall k :: k in ps.keyOrder ==> k in ps.keyTypes)
    && (forall k :: k in ps.keyTypes ==> k in ps.keyOrder)
    && (forall k :: k in ps.keyTypes ==> ValidPropertyKey(k))
    && |ps.keyOrder| < 0x8000_0000
  }

  /** Every non-null field is a schema key holding a value of that key's type. */
  predicate Conforms(ps: PropertySchema, fields: Fields) {
    forall k :: k in fields ==> k in ps.keyTypes && TypeOf(fields[k]) == ps.keyTypes[k]
  }

  /**
    specificProperty(key) / specificProperties(key): the property of a schema
    key whose field is non-null; nothing for a null field or a key outside
    the schema.
  */
  function SpecificProperty(ps: PropertySchema, fields: Fields, key: JString): (r: Option<Value>)
    requires Conforms(ps, fields)
    ensures r.Some? ==> key in ps.keyTypes && TypeOf(r.value) == ps.keyTypes[key]
    ensures r.Some? <==> key in fields
    ensures r.Some? ==> r.value == fields[key]
  {
    if key in ps.keyTypes && key in fields then Some(fields[key]) else None
  }

  /**
    updateSpecificProperty: a key outside the schema is not supported, a
    value of the wrong type fails the field's cast; otherwise exactly that
    field is set.
  */
  function UpdateSpecificProperty(ps: PropertySchema, fields: Fields, key: JString, v: Value): (r: Result<Fields>)
    requires Conforms(ps, fields)
    ensures key !in ps.keyTypes ==> r == Err(PropertyNotSupported)
    ensures key in ps.keyTypes && TypeOf(v) != ps.keyTypes[key] ==> r == Err(ClassCast)
    ensures r.Ok? <==> key in ps.keyTypes && TypeOf(v) == ps.keyTypes[key]
    ensures r.Ok? ==> Conforms(ps, r.value) && SpecificProperty(ps, r.value, key) == Some(v)
    ensures r.Ok? ==> forall k :: k != key ==> SpecificProperty(ps, r.value, k) == SpecificProperty(ps, fields, k)
  {
    if key !in ps.keyTypes then Err(PropertyNotSupported)
    else if TypeOf(v) != ps.keyTypes[key] then Err(ClassCast)
    else Ok(fields[key := v])
  }

  /**
    removeSpecificProperty: a key outside the schema is not supported;
    otherwise exactly that field becomes null.
  */
  function RemoveSpecificProperty(ps: PropertySchema, fields: Fields, key: JString): (r: Result<Fields>)
    requires Conforms(ps, fields)
    ensures r.Ok? <==> key in ps.keyTypes
    ensures r.Err? ==> r.error == PropertyNotSupported
    ensures r.Ok? ==> Conforms(ps, r.value) && SpecificProperty(ps, r.value, key).None?
    ensures r.Ok? ==> forall k :: k != key ==> SpecificProperty(ps, r.value, k) == SpecificProperty(ps, fields, k)
  {
    if key !in ps.keyTypes then Err(PropertyNotSupported) else Ok(fields - {key})
  }

  /** The present properties among the given keys, one per key, in the order of the keys. */
  function Collect(ps: PropertySchema, fields: Fields, keys: seq<JString>): (r: seq<Property>)
    requires Conforms(ps, fields)
    ensures |r| <= |keys|
    ensures forall p :: p in r <==> p.key in keys && SpecificProperty(ps, fields, p.key) == Some(p.value)
  {
    if |keys| == 0 then []
    else
      var head := match SpecificProperty(ps, fields, keys[0])
        case Some(v) => [Property(keys[0], v)]
        case None => [];
      head + Collect(ps, fields, keys[1..])
  }

  /**
    properties(keys...): with no keys, every present property of the schema;
    otherwise the present properties among the keys asked for.
  */
  function Properties(ps: PropertySchema, fields: Fields, keys: seq<JString>): (r: seq<Property>)
    requires Conforms(ps, fields)
    ensures |r| <= if |keys| == 0 then |ps.keyOrder| else |keys|
    ensures |keys| == 0 ==> forall p :: p in r <==> p.key in ps.keyOrder && p.key in fields && fields[p.key] == p.value
    ensures |keys| > 0 ==> forall p :: p in r <==> p.key in keys && p.key in ps.keyTypes && p.key in fields && fields[p.key] == p.value
  {
    if |keys| == 0 then Collect(ps, fields, ps.keyOrder) else Collect(ps, fields, keys)
  }

  /**
    property(key, value) past the removed check: validate the key, then
    update the field.
  */
  function SetProperty(ps: PropertySchema, fields: Fields, key: JString, v: Value): (r: Result<Fields>)
    requires Conforms(ps, fields)
    ensures !ValidPropertyKey(key) ==> r == Err(InvalidPropertyKey)
    ensures ValidPropertyKey(key) ==> r == UpdateSpecificProperty(ps, fields, key, v)
    ensures r.Ok? <==> Attachable(ps, Property(key, v))
    ensures r.Ok? ==> Conforms(ps, r.value)
  {
    if !ValidPropertyKey(key) then Err(InvalidPropertyKey) else UpdateSpecificProperty(ps, fields, key, v)
  }

  /** A property that property(key, value) accepts whatever the fields hold: a legal schema key and a value of its type. */
  predicate Attachable(ps: PropertySchema, p: Property) {
    ValidPropertyKey(p.key) && p.key in ps.keyTypes && TypeOf(p.value) == ps.keyTypes[p.key]
  }

  /** The value of the last property with key k in the list, if there is one. */
  function LastValue(props: seq<Property>, k: JString): (r: Option<Value>)
    ensures r.None? <==> forall i :: 0 <= i < |props| ==> props[i].key != k
    ensures r.Some? ==>
      exists i :: 0 <= i < |props| && props[i] == Property(k, r.value) && (forall j :: i < j < |props| ==> props[j].key != k)
    decreases |props|
  {
    if |props| == 0 then None
    else
      var later := LastValue(props[1..], k);
      assert forall i :: 0 < i < |props| ==> props[i] == props[1..][i - 1];
      if later.Some? then
        ghost var i :| 0 <= i < |props[1..]| && props[1..][i] == Property(k, later.value) &&
          forall j :: i < j < |props[1..]| ==> props[1..][j].key != k;
        assert props[i + 1] == Property(k, later.value);
        later
      else if props[0].key == k then Some(props[0].value)
      else None
  }

  /** ElementHelper.attachProperties: sets the properties one after the other, stopping at the first failure. */
  function AttachAll(ps: PropertySchema, fields: Fields, props: seq<Property>): (r: Result<Fields>)
    requires Conforms(ps, fields)
    ensures r.Ok? ==> Conforms(ps, r.value)
    decreases |props|
  {
    if |props| == 0 then Ok(fields)
    else
      match SetProperty(ps, fields, props[0].key, props[0].value)
      case Err(e) => Err(e)
      case Ok(next) => AttachAll(ps, next, props[1..])
  }

  /**
    When attachProperties fails: exactly when some property is not
    attachable, and then with the error of the first such property.
  */
  lemma {:induction false} AttachAllFailure(ps: PropertySchema, fields: Fields, props: seq<Property>)
    requires Conforms(ps, fields)
    ensures AttachAll(ps, fields, props).Ok? <==> forall i :: 0 <= i < |props| ==> Attachable(ps, props[i])
    ensures AttachAll(ps, fields, props).Err? ==>
      (exists i :: 0 <= i < |props| && !Attachable(ps, props[i]) &&
        (forall j :: 0 <= j < i ==> Attachable(ps, props[j])) &&
        SetProperty(ps, fields, props[i].key, props[i].value) == Err(AttachAll(ps, fields, props).error))
    decreases |props|
  {
    if |props| > 0 {
      var p := props[0];
      assert forall i :: 0 < i < |props| ==> props[i] == props[1..][i - 1];
      if Attachable(ps, p) {
        var next := fields[p.key := p.value];
        assert SetProperty(ps, fields, p.key, p.value) == Ok(next);
        AttachAllFailure(ps, next, props[1..]);
        var r := AttachAll(ps, next, props[1..]);
        assert AttachAll(ps, fields, props) == r;
        if r.Err? {
          var i :| 0 <= i < |props[1..]| && !Attachable(ps, props[1..][i]) &&
            (forall j :: 0 <= j < i ==> Attachable(ps, props[1..][j])) &&
            SetProperty(ps, next, props[1..][i].key, props[1..][i].value) == Err(r.error);
          assert props[i + 1] == props[1..][i];
          assert forall j :: 0 <= j < i + 1 ==> Attachable(ps, props[j]);
        }
      }
    }
  }

  /**
    What a successful attachProperties leaves: a key is non-null exactly
    when it was before or some property names it, and holds the value of
    the last property that names it, or its old value when none does.
  */
  lemma {:induction false} AttachAllValues(ps: PropertySchema, fields: Fields, props: seq<Property>)
    requires Conforms(ps, fields)
    ensures AttachAll(ps, fields, props).Ok? ==>
      forall k :: k in AttachAll(ps, fields, props).value <==> k in fields || LastValue(props, k).Some?
    ensures AttachAll(ps, fields, props).Ok? ==>
      forall k :: k in AttachAll(ps, fields, props).value ==>
        AttachAll(ps, fields, props).value[k] == if LastValue(props, k).Some? then LastValue(props, k).value else fields[k]
    decreases |props|
  {
    if |props| > 0 {
      var p := props[0];
      if Attachable(ps, p) {
        var next := fields[p.key := p.value];
        assert SetProperty(ps, fields, p.key, p.value) == Ok(next);
        AttachAllValues(ps, next, props[1..]);
        assert AttachAll(ps, fields, props) == AttachAll(ps, next, props[1..]);
      }
    }
  }

  /** The first property decides: its failure is the result, or the rest are set on its outcome. */
  lemma AttachAllCons(ps: PropertySchema, fields: Fields, props: seq<Property>)
    requires Conforms(ps, fields) && |props| > 0
    ensures SetProperty(ps, fields, props[0].key, props[0].value).Err? ==>
      AttachAll(ps, fields, props) == Err(SetProperty(ps, fields, props[0].key, props[0].value).error)
    ensures SetProperty(ps, fields, props[0].key, props[0].value).Ok? ==>
      AttachAll(ps, fields, props) == AttachAll(ps, SetProperty(ps, fields, props[0].key, props[0].value).value, props[1..])
  {
  }

  /** `fields` with the non-null fields among `keys` copied from `from`, key by key. */
  function Overlay(fields: Fields, from: Fields, keys: seq<JString>): Fields
    decreases |keys|
  {
    if |keys| == 0 then fields
    else Overlay(if keys[0] in from then fields[keys[0] := from[keys[0]]] else fields, from, keys[1..])
  }

  lemma {:induction false} OverlayAt(fields: Fields, from: Fields, keys: seq<JString>, k: JString)
    ensures k in Overlay(fields, from, keys) <==> k in fields || (k in keys && k in from)
    ensures k in Overlay(fields, from, keys) ==>
      Overlay(fields, from, keys)[k] == if k in keys && k in from then from[k] else fields[k]
    decreases |keys|
  {
    if |keys| > 0 {
      var next := if keys[0] in from then fields[keys[0] := from[keys[0]]] else fields;
      OverlayAt(next, from, keys[1..], k);
      assert k in keys <==> k == keys[0] || k in keys[1..];
    }
  }

  lemma {:induction false} AttachCollected(ps: PropertySchema, fields: Fields, from: Fields, keys: seq<JString>)
    requires Conforms(ps, fields) && Conforms(ps, from)
    requires forall k :: k in keys ==> ValidPropertyKey(k)
    ensures AttachAll(ps, fields, Collect(ps, from, keys)) == Ok(Overlay(fields, from, keys))
    decreases |keys|
  {
    if |keys| > 0 {
      var k := keys[0];
      var next := if k in from then fields[k := from[k]] else fields;
      AttachCollected(ps, next, from, keys[1..]);
      if k in from {
        var c := Collect(ps, from, keys);
        assert c[0] == Property(k, from[k]);
        assert c[1..] == Collect(ps, from, keys[1..]);
        assert SetProperty(ps, fields, k, from[k]) == Ok(next);
      } else {
        assert Collect(ps, from, keys) == Collect(ps, from, keys[1..]);
      }
    }
  }

  /**
    Attaching, to an element with every field null, the properties read off
    another element of the same schema gives that element's fields back: the
    property part of the serializer round trip.
  */
  lemma AttachAllOfProperties(ps: PropertySchema, fields: Fields)
    requires WellFormed(ps) && Conforms(ps, fields)
    ensures AttachAll(ps, map[], Properties(ps, fields, [])) == Ok(fields)
  {
    AttachCollected(ps, map[], fields, ps.keyOrder);
    var o := Overlay(map[], fields, ps.keyOrder);
    forall k | true
      ensures (k in o <==> k in fields) && (k in o ==> o[k] == fields[k])
    {
      OverlayAt(map[], fields, ps.keyOrder, k);
    }
    assert o == fields;
  }
}
