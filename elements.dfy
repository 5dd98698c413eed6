/**
  SpecializedTinkerVertex and SpecializedTinkerEdge: elements whose
  properties are the fields of a closed schema, with a dirty flag
  (modifiedSinceLastSerialization) and a modification lock. The model is
  single-threaded: the lock is a flag, and acquiring it requires that it is
  free (in Java a second acquire would block). A vertex keeps its incident
  edges as edge ids in two label-to-list maps; an edge keeps the ids of its
  endpoints.
*/
module Elements {
  import opened Wrappers
  import opened JavaLang
  import opened Schema
  import opened Adjacency
  import opened EdgeCodec

  /** A snapshot of a specialized vertex. */
  datatype VertexState = VertexState(
    id: Long,
    schema: VertexSchema,
    fields: Fields,
    outEdgesByLabel: EdgesByLabel,
    inEdgesByLabel: EdgesByLabel)

  /** A snapshot of a specialized edge. */
  datatype EdgeState = EdgeState(
    id: Long,
    schema: EdgeSchema,
    outVertexId: Long,
    inVertexId: Long,
    fields: Fields)

  /**
    The record EdgeSerializer.serialize writes for an edge: its id, its
    label, its present properties in schema key order and its endpoint ids.
  */
  function RecordOf(st: EdgeState): (r: EdgeRecord)
    requires WellFormed(st.schema.properties) && Conforms(st.schema.properties, st.fields)
    ensures r.id == st.id && r.edgeLabel == st.schema.elementLabel
    ensures r.outVertexId == st.outVertexId && r.inVertexId == st.inVertexId
    ensures forall p :: p in r.properties <==> p.key in st.fields && st.fields[p.key] == p.value
  {
    EdgeRecord(st.id, st.schema.elementLabel, Properties(st.schema.properties, st.fields, []),
      st.outVertexId, st.inVertexId)
  }

  class SpecializedEdge {
    const id: Long
    const schema: EdgeSchema
    /** The endpoints, by id, so that the edge can live on disk without them. */
    const outVertexId: Long
    const inVertexId: Long
    var fields: Fields
    var removed: bool
    var dirty: bool
    var locked: bool

    ghost predicate Valid()
      reads this
    {
      WellFormed(schema.properties) && Conforms(schema.properties, fields)
    }

    /** A factory's createEdge: every field null, not removed, dirty, unlocked. */
    constructor (id: Long, schema: EdgeSchema, outVertexId: Long, inVertexId: Long)
      requires WellFormed(schema.properties)
      ensures Valid()
      ensures this.id == id && this.schema == schema
      ensures this.outVertexId == outVertexId && this.inVertexId == inVertexId
      ensures fields == map[] && !removed && dirty && !locked
    {
      this.id := id;
      this.schema := schema;
      this.outVertexId := outVertexId;
      this.inVertexId := inVertexId;
      fields := map[];
      removed := false;
      dirty := true;
      locked := false;
    }

    function Label(): JString {
      schema.elementLabel
    }

    /** keys(): the key set the edge was built with. */
    function Keys(): (r: set<JString>)
      requires WellFormed(schema.properties)
      ensures forall k :: k in r <==> k in schema.properties.keyOrder
    {
      schema.properties.keyTypes.Keys
    }

    /** property(key): the field's property, read whether or not the edge is removed. */
    function Property(key: JString): (r: Option<Value>)
      reads this
      requires Valid()
      ensures r.Some? ==> key in Keys() && key in fields && r.value == fields[key]
      ensures r.None? ==> key !in fields
    {
      SpecificProperty(schema.properties, fields, key)
    }

    /**
      properties(keys...): with no keys, the present properties among the
      schema keys; with one key at most one property; otherwise the present
      ones among the keys asked for.
    */
    function Properties(keys: seq<JString>): (r: seq<Schema.Property>)
      reads this
      requires Valid()
      ensures |keys| == 1 ==> |r| <= 1
      ensures forall p :: p in r ==> Property(p.key) == Some(p.value)
    {
      Schema.Properties(schema.properties, fields, keys)
    }

    /** The end of remove: marked removed and dirty, and the lock released. */
    method MarkRemoved()
      modifies this
      ensures removed && dirty && !locked && fields == old(fields)
    {
      removed := true;
      dirty := true;
      locked := false;
    }

    /** The edge as a value: what a serializer can see of it. */
    function State(): EdgeState
      reads this
    {
      EdgeState(id, schema, outVertexId, inVertexId, fields)
    }

    /** toString: "e[id][outId-label->inId]". */
    function ToString(): (s: string)
    {
      "e[" + LongToString(id) + "][" + LongToString(outVertexId) + "-" + Label() + "->" + LongToString(inVertexId) + "]"
    }

    /**
      property(key, value): a removed edge throws before any change, and so
      does an illegal key; neither path touches the lock, so only the path
      that goes on needs it free. Otherwise the lock is taken and the edge marked
      dirty before the field is updated; the lock is released only when the
      update succeeds (there is no finally block).
    */
    method SetProperty(key: JString, v: Value) returns (r: Result<Schema.Property>)
      requires Valid() && (!removed && ValidPropertyKey(key) ==> !locked)
      modifies this
      ensures Valid() && removed == old(removed)
      ensures old(removed) ==> r == Err(ElementAlreadyRemoved) && fields == old(fields) && dirty == old(dirty) && locked == old(locked)
      ensures !old(removed) && !ValidPropertyKey(key) ==>
        r == Err(InvalidPropertyKey) && fields == old(fields) && dirty == old(dirty) && locked == old(locked)
      ensures !old(removed) && ValidPropertyKey(key) ==> dirty
      ensures !old(removed) && ValidPropertyKey(key) ==>
        match UpdateSpecificProperty(schema.properties, old(fields), key, v)
        case Ok(f) => r == Ok(Schema.Property(key, v)) && fields == f && !locked
        case Err(e) => r == Err(e) && fields == old(fields) && locked
    {
      if removed {
        return Err(ElementAlreadyRemoved);
      }
      if !ValidPropertyKey(key) {
        return Err(InvalidPropertyKey);
      }
      locked := true;
      dirty := true;
      var updated := UpdateSpecificProperty(schema.properties, fields, key, v);
      if updated.Err? {
        return Err(updated.error);
      }
      fields := updated.value;
      locked := false;
      return Ok(Schema.Property(key, v));
    }

    /**
      removeProperty(key): takes the lock, marks the edge dirty and nulls the
      field; a key outside the schema throws with the lock still held.
    */
    method RemoveProperty(key: JString) returns (r: Outcome)
      requires Valid() && !locked
      modifies this
      ensures Valid() && removed == old(removed) && dirty
      ensures match RemoveSpecificProperty(schema.properties, old(fields), key)
        case Ok(f) => r == Pass && fields == f && !locked
        case Err(e) => r == Fail(e) && fields == old(fields) && locked
    {
      locked := true;
      dirty := true;
      var updated := RemoveSpecificProperty(schema.properties, fields, key);
      if updated.Err? {
        return Fail(updated.error);
      }
      fields := updated.value;
      locked := false;
      return Pass;
    }

    /**
      ElementHelper.attachProperties: property(key, value) for each pair in
      turn, stopping at the first that throws.
    */
    method AttachProperties(props: seq<Schema.Property>) returns (r: Outcome)
      requires Valid() && !locked && !removed
      modifies this
      ensures Valid() && !removed
      ensures r == Pass <==> AttachAll(schema.properties, old(fields), props).Ok?
      ensures r == Pass ==> fields == AttachAll(schema.properties, old(fields), props).value && !locked
      ensures r.Fail? ==> r.error == AttachAll(schema.properties, old(fields), props).error
      ensures r == Pass ==> dirty == (old(dirty) || |props| > 0)
    {
      var k := 0;
      while k < |props|
        invariant 0 <= k <= |props|
        invariant Valid() && !locked && !removed
        invariant AttachAll(schema.properties, old(fields), props) == AttachAll(schema.properties, fields, props[k..])
        invariant dirty == (old(dirty) || k > 0)
      {
        var p := props[k];
        assert props[k..][1..] == props[k + 1..];
        AttachAllCons(schema.properties, fields, props[k..]);
        var outcome := SetProperty(p.key, p.value);
        if outcome.Err? {
          return Fail(outcome.error);
        }
        k := k + 1;
      }
      return Pass;
    }
  }

  class SpecializedVertex {
    const id: Long
    const schema: VertexSchema
    var fields: Fields
    var outEdgesByLabel: EdgesByLabel
    var inEdgesByLabel: EdgesByLabel
    var removed: bool
    var dirty: bool
    var locked: bool

    ghost predicate Valid()
      reads this
    {
      WellFormed(schema.properties) && Conforms(schema.properties, fields)
    }

    /** A factory's createVertex: every field null, no edges, not removed, dirty, unlocked. */
    constructor (id: Long, schema: VertexSchema)
      requires WellFormed(schema.properties)
      ensures Valid()
      ensures this.id == id && this.schema == schema
      ensures fields == map[] && outEdgesByLabel == map[] && inEdgesByLabel == map[]
      ensures !removed && dirty && !locked
    {
      this.id := id;
      this.schema := schema;
      fields := map[];
      outEdgesByLabel := map[];
      inEdgesByLabel := map[];
      removed := false;
      dirty := true;
      locked := false;
    }

    function Label(): JString {
      schema.elementLabel
    }

    /** keys(): exactly the schema's specificKeys(). */
    function Keys(): (r: set<JString>)
      requires WellFormed(schema.properties)
      ensures forall k :: k in r <==> k in schema.properties.keyOrder
    {
      schema.properties.keyTypes.Keys
    }

    /** property(key): nothing on a removed vertex, otherwise the field's property. */
    function Property(key: JString): (r: Option<Value>)
      reads this
      requires Valid()
      ensures removed ==> r.None?
      ensures r.Some? ==> key in Keys() && key in fields && r.value == fields[key]
      ensures !removed && r.None? ==> key !in fields
    {
      if removed then None else SpecificProperty(schema.properties, fields, key)
    }

    /** properties(keys...): nothing on a removed vertex, otherwise as for an edge. */
    function Properties(keys: seq<JString>): (r: seq<Schema.Property>)
      reads this
      requires Valid()
      ensures removed ==> r == []
      ensures |keys| == 1 ==> |r| <= 1
      ensures forall p :: p in r ==> Property(p.key) == Some(p.value)
    {
      if removed then [] else Schema.Properties(schema.properties, fields, keys)
    }

    /** The vertex as a value: what a serializer can see of it. */
    function State(): VertexState
      reads this
    {
      VertexState(id, schema, fields, outEdgesByLabel, inEdgesByLabel)
    }

    /**
      property(cardinality, key, value): a removed vertex throws before any
      change, and so does an illegal key; neither path touches the lock, so
      only the path that goes on needs it free. Otherwise the lock is taken and the
      vertex marked dirty before the field is updated; the lock is released
      only when the update succeeds (there is no finally block). The
      property returned is the one now read back under the key.
    */
    method SetProperty(key: JString, v: Value) returns (r: Result<Schema.Property>)
      requires Valid() && (!removed && ValidPropertyKey(key) ==> !locked)
      modifies this
      ensures Valid() && removed == old(removed)
      ensures outEdgesByLabel == old(outEdgesByLabel) && inEdgesByLabel == old(inEdgesByLabel)
      ensures old(removed) ==> r == Err(ElementAlreadyRemoved) && fields == old(fields) && dirty == old(dirty) && locked == old(locked)
      ensures !old(removed) && !ValidPropertyKey(key) ==>
        r == Err(InvalidPropertyKey) && fields == old(fields) && dirty == old(dirty) && locked == old(locked)
      ensures !old(removed) && ValidPropertyKey(key) ==> dirty
      ensures !old(removed) && ValidPropertyKey(key) ==>
        match UpdateSpecificProperty(schema.properties, old(fields), key, v)
        case Ok(f) => r == Ok(Schema.Property(key, v)) && fields == f && !locked && Property(key) == Some(v)
        case Err(e) => r == Err(e) && fields == old(fields) && locked
    {
      if removed {
        return Err(ElementAlreadyRemoved);
      }
      if !ValidPropertyKey(key) {
        return Err(InvalidPropertyKey);
      }
      locked := true;
      dirty := true;
      var updated := UpdateSpecificProperty(schema.properties, fields, key, v);
      if updated.Err? {
        return Err(updated.error);
      }
      fields := updated.value;
      locked := false;
      var readBack := Property(key);
      return Ok(Schema.Property(key, readBack.value));
    }

    /**
      removeProperty(key): takes the lock, marks the vertex dirty and nulls
      the field; a key outside the schema throws with the lock still held.
      There is no removed check.
    */
    method RemoveProperty(key: JString) returns (r: Outcome)
      requires Valid() && !locked
      modifies this
      ensures Valid() && removed == old(removed) && dirty
      ensures outEdgesByLabel == old(outEdgesByLabel) && inEdgesByLabel == old(inEdgesByLabel)
      ensures match RemoveSpecificProperty(schema.properties, old(fields), key)
        case Ok(f) => r == Pass && fields == f && !locked
        case Err(e) => r == Fail(e) && fields == old(fields) && locked
    {
      locked := true;
      dirty := true;
      var updated := RemoveSpecificProperty(schema.properties, fields, key);
      if updated.Err? {
        return Fail(updated.error);
      }
      fields := updated.value;
      locked := false;
      return Pass;
    }

    /** ElementHelper.attachProperties on a new vertex, as for an edge. */
    method AttachProperties(props: seq<Schema.Property>) returns (r: Outcome)
      requires Valid() && !locked && !removed
      modifies this
      ensures Valid() && !removed
      ensures outEdgesByLabel == old(outEdgesByLabel) && inEdgesByLabel == old(inEdgesByLabel)
      ensures r == Pass <==> AttachAll(schema.properties, old(fields), props).Ok?
      ensures r == Pass ==> fields == AttachAll(schema.properties, old(fields), props).value && !locked
      ensures r.Fail? ==> r.error == AttachAll(schema.properties, old(fields), props).error
      ensures r == Pass ==> dirty == (old(dirty) || |props| > 0)
    {
      var k := 0;
      while k < |props|
        invariant 0 <= k <= |props|
        invariant Valid() && !locked && !removed
        invariant outEdgesByLabel == old(outEdgesByLabel) && inEdgesByLabel == old(inEdgesByLabel)
        invariant dirty == (old(dirty) || k > 0)
        invariant AttachAll(schema.properties, old(fields), props) == AttachAll(schema.properties, fields, props[k..])
      {
        var p := props[k];
        assert props[k..][1..] == props[k + 1..];
        AttachAllCons(schema.properties, fields, props[k..]);
        var outcome := SetProperty(p.key, p.value);
        if outcome.Err? {
          return Fail(outcome.error);
        }
        k := k + 1;
      }
      return Pass;
    }

    /**
      storeOutEdge: the edge goes at the end of the outgoing list of its
      label, which is created when the label is new; no other list changes.
    */
    method StoreOutEdge(e: SpecializedEdge)
      modifies this
      ensures outEdgesByLabel == StoreEdge(old(outEdgesByLabel), e.Label(), e.id)
      ensures inEdgesByLabel == old(inEdgesByLabel) && fields == old(fields)
      ensures removed == old(removed) && dirty == old(dirty) && locked == old(locked)
    {
      outEdgesByLabel := StoreEdge(outEdgesByLabel, e.Label(), e.id);
    }

    /** storeInEdge: the same for the incoming list of the edge's label. */
    method StoreInEdge(e: SpecializedEdge)
      modifies this
      ensures inEdgesByLabel == StoreEdge(old(inEdgesByLabel), e.Label(), e.id)
      ensures outEdgesByLabel == old(outEdgesByLabel) && fields == old(fields)
      ensures removed == old(removed) && dirty == old(dirty) && locked == old(locked)
    {
      inEdgesByLabel := StoreEdge(inEdgesByLabel, e.Label(), e.id);
    }

    /**
      The end of addEdge: under this vertex's lock, the new edge goes at the
      end of this vertex's out list and of the target's in list for its
      label; then the lock is released and this vertex marked dirty.
    */
    method Connect(inVertex: SpecializedVertex, e: SpecializedEdge)
      requires !locked
      modifies this, inVertex
      ensures inVertex != this ==>
        outEdgesByLabel == StoreEdge(old(outEdgesByLabel), e.Label(), e.id) && inEdgesByLabel == old(inEdgesByLabel) &&
        inVertex.inEdgesByLabel == StoreEdge(old(inVertex.inEdgesByLabel), e.Label(), e.id) &&
        inVertex.outEdgesByLabel == old(inVertex.outEdgesByLabel) &&
        inVertex.fields == old(inVertex.fields) && inVertex.removed == old(inVertex.removed) &&
        inVertex.dirty == old(inVertex.dirty) && inVertex.locked == old(inVertex.locked)
      ensures inVertex == this ==>
        outEdgesByLabel == StoreEdge(old(outEdgesByLabel), e.Label(), e.id) &&
        inEdgesByLabel == StoreEdge(old(inEdgesByLabel), e.Label(), e.id)
      ensures fields == old(fields) && removed == old(removed) && dirty && !locked
    {
      locked := true;
      StoreOutEdge(e);
      inVertex.StoreInEdge(e);
      locked := false;
      dirty := true;
    }

    /**
      removeOutEdge (called by the edge's remove but not defined in the
      vertex class): the entries with this edge id leave the outgoing list of
      the edge's label.
    */
    method RemoveOutEdge(edgeLabel: JString, edgeId: Long)
      modifies this
      ensures outEdgesByLabel == Detach(old(outEdgesByLabel), edgeLabel, edgeId)
      ensures inEdgesByLabel == old(inEdgesByLabel) && fields == old(fields)
      ensures removed == old(removed) && dirty == old(dirty) && locked == old(locked)
    {
      outEdgesByLabel := Detach(outEdgesByLabel, edgeLabel, edgeId);
    }

    /** removeInEdge: the same for the incoming list. */
    method RemoveInEdge(edgeLabel: JString, edgeId: Long)
      modifies this
      ensures inEdgesByLabel == Detach(old(inEdgesByLabel), edgeLabel, edgeId)
      ensures outEdgesByLabel == old(outEdgesByLabel) && fields == old(fields)
      ensures removed == old(removed) && dirty == old(dirty) && locked == old(locked)
    {
      inEdgesByLabel := Detach(inEdgesByLabel, edgeLabel, edgeId);
    }

    /**
      edges(direction, labels...), as it is evidently meant; the code as
      written is Adjacency.EdgesAsWritten.
    */
    ghost function Edges(dir: Direction, labels: seq<JString>): (r: seq<Long>)
      reads this
      ensures forall x :: x in r <==> Matches(outEdgesByLabel, inEdgesByLabel, dir, labels, x)
    {
      EdgesIntended(outEdgesByLabel, inEdgesByLabel, dir, labels)
    }
  }

  /**
    storeEdge: get-or-create the list of the label, then append the edge id;
    the other labels keep their lists.
  */
  function StoreEdge(m: EdgesByLabel, edgeLabel: JString, id: Long): (r: EdgesByLabel)
    ensures edgeLabel in r && r[edgeLabel] == ListOf(m, edgeLabel) + [id]
    ensures forall l :: l in m && l != edgeLabel ==> l in r && r[l] == m[l]
    ensures r.Keys == m.Keys + {edgeLabel}
  {
    var list := if edgeLabel in m then m[edgeLabel] else [];
    m[edgeLabel := list + [id]]
  }

  /**
    A factory's createVertex followed by attachProperties: a new vertex with
    the given id and schema, and the properties attached one by one.
  */
  method NewVertex(id: Long, schema: VertexSchema, props: seq<Schema.Property>) returns (r: Result<SpecializedVertex>)
    requires WellFormed(schema.properties)
    ensures AttachAll(schema.properties, map[], props).Err? ==> r == Err(AttachAll(schema.properties, map[], props).error)
    ensures AttachAll(schema.properties, map[], props).Ok? ==>
      r.Ok? && fresh(r.value) && r.value.Valid() &&
      r.value.State() == VertexState(id, schema, AttachAll(schema.properties, map[], props).value, map[], map[]) &&
      !r.value.removed && !r.value.locked && r.value.dirty
  {
    var vertex := new SpecializedVertex(id, schema);
    var attached := vertex.AttachProperties(props);
    if attached.Fail? {
      return Err(attached.error);
    }
    return Ok(vertex);
  }

  /**
    A factory's createEdge followed by attachProperties: a new edge with the
    given id, schema and endpoint ids, and the properties attached one by one.
  */
  method NewEdge(id: Long, schema: EdgeSchema, outVertexId: Long, inVertexId: Long, props: seq<Schema.Property>)
    returns (r: Result<SpecializedEdge>)
    requires WellFormed(schema.properties)
    ensures AttachAll(schema.properties, map[], props).Err? ==> r == Err(AttachAll(schema.properties, map[], props).error)
    ensures AttachAll(schema.properties, map[], props).Ok? ==>
      r.Ok? && fresh(r.value) && r.value.Valid() &&
      r.value.State() == EdgeState(id, schema, outVertexId, inVertexId, AttachAll(schema.properties, map[], props).value) &&
      !r.value.removed && !r.value.locked && r.value.dirty
  {
    var edge := new SpecializedEdge(id, schema, outVertexId, inVertexId);
    var attached := edge.AttachProperties(props);
    if attached.Fail? {
      return Err(attached.error);
    }
    return Ok(edge);
  }
}
