/**
  The memory-relief layer: the edge serializer, the on-disk overflow store
  with its two id-keyed namespaces, and the soft reference manager that
  decides how many elements stay strongly held.
*/
module Storage {
  import opened Wrappers
  import opened JavaLang
  import opened MsgPack
  import opened Schema
  import opened EdgeCodec
  import opened Elements

  /** An element handed to the overflow store: a vertex or an edge. */
  datatype TinkerElement = VertexElement(v: SpecializedVertex) | EdgeElement(e: SpecializedEdge)
  {
    function Id(): Long {
      match this
      case VertexElement(v) => v.id
      case EdgeElement(e) => e.id
    }

    function Object(): (o: object)
      ensures VertexElement? ==> o == v
      ensures EdgeElement? ==> o == e
    {
      match this
      case VertexElement(v) => v
      case EdgeElement(e) => e
    }
  }

  /**
    EdgeSerializer: writes an edge as a record and rebuilds an edge from one
    with the factory registered for the record's label. Of the graph handle
    of the Java class, serialize uses the ids of the stored vertices (its
    outVertex() and inVertex() look the endpoints up there); deserialize
    only builds endpoint references, which are ids here.
  */
  class EdgeSerializer {
    const edgeFactoryByLabel: map<JString, EdgeSchema>

    constructor (edgeFactoryByLabel: map<JString, EdgeSchema>)
      ensures this.edgeFactoryByLabel == edgeFactoryByLabel
    {
      this.edgeFactoryByLabel := edgeFactoryByLabel;
    }

    /** Each factory is registered under the label of the edges it creates, and its schema is well formed. */
    predicate Valid() {
      forall l :: l in edgeFactoryByLabel ==>
        edgeFactoryByLabel[l].elementLabel == l && WellFormed(edgeFactoryByLabel[l].properties)
    }

    /**
      The edge deserialize builds from the bytes, as a value: the record is
      decoded, the factory for its label creates the edge (a label without
      one is a null dereference) and the properties are attached to it.
    */
    function Rebuild(bytes: Bytes): (r: Result<EdgeState>)
      requires Valid()
      ensures r.Ok? ==> Decode(bytes).Ok? && r.value.id == Decode(bytes).value.id
      ensures r.Ok? ==> r.value.schema.elementLabel in edgeFactoryByLabel
      ensures r.Ok? ==> r.value.schema == edgeFactoryByLabel[r.value.schema.elementLabel]
      ensures r.Ok? ==> Conforms(r.value.schema.properties, r.value.fields)
      ensures Decode(bytes).Ok? && Decode(bytes).value.edgeLabel !in edgeFactoryByLabel ==> r == Err(NullPointer)
    {
      var rec :- Decode(bytes);
      if rec.edgeLabel !in edgeFactoryByLabel then Err(NullPointer)
      else
        var schema := edgeFactoryByLabel[rec.edgeLabel];
        var fields :- AttachAll(schema.properties, map[], rec.properties);
        Ok(EdgeState(rec.id, schema, rec.outVertexId, rec.inVertexId, fields))
    }

    /**
      Round trip: rebuilding from the bytes written for an edge whose
      factory is registered gives back the same edge (id, schema and so
      label, endpoint ids, fields).
    */
    lemma RebuildOfEncode(st: EdgeState)
      requires Valid()
      requires st.schema.elementLabel in edgeFactoryByLabel
      requires st.schema == edgeFactoryByLabel[st.schema.elementLabel]
      requires Conforms(st.schema.properties, st.fields)
      ensures Rebuild(Encode(RecordOf(st))) == Ok(st)
    {
      var rec := RecordOf(st);
      DecodeOfEncode(rec, []);
      assert Encode(rec) + [] == Encode(rec);
      AttachAllOfProperties(st.schema.properties, st.fields);
    }

    /**
      serialize: the five fields packed into one buffer, one after the
      other. The endpoint ids are read through the endpoints themselves,
      looked up among the stored vertices: an endpoint that is not stored
      is null, and asking it for its id throws before anything is returned.
    */
    method Serialize(e: SpecializedEdge, storedVertexIds: set<Long>) returns (r: Result<Bytes>)
      requires e.Valid()
      ensures r.Ok? <==> e.outVertexId in storedVertexIds && e.inVertexId in storedVertexIds
      ensures r.Ok? ==> r.value == Encode(RecordOf(e.State()))
      ensures r.Err? ==> r.error == NullPointer
    {
      var properties := Properties(e.schema.properties, e.fields, []);
      var bytes := PackLong(e.id);
      bytes := bytes + PackString(e.Label());
      bytes := bytes + PackProperties(properties);
      if e.outVertexId !in storedVertexIds {
        return Err(NullPointer);
      }
      bytes := bytes + PackLong(e.outVertexId);
      if e.inVertexId !in storedVertexIds {
        return Err(NullPointer);
      }
      bytes := bytes + PackLong(e.inVertexId);
      return Ok(bytes);
    }

    /**
      deserialize: unpack the five fields in order, create the edge with the
      factory of its label, attach the properties and clear the dirty flag.
    */
    method Deserialize(bytes: Bytes) returns (r: Result<SpecializedEdge>)
      requires Valid()
      ensures r.Ok? <==> Rebuild(bytes).Ok?
      ensures r.Err? ==> r.error == Rebuild(bytes).error
      ensures r.Ok? ==> fresh(r.value) && r.value.Valid() && r.value.State() == Rebuild(bytes).value
      ensures r.Ok? ==> !r.value.dirty && !r.value.removed && !r.value.locked
    {
      var id :- UnpackLong(bytes);
      var edgeLabel :- UnpackString(id.rest);
      var properties :- UnpackProperties(edgeLabel.rest);
      var outVertexId :- UnpackLong(properties.rest);
      var inVertexId :- UnpackLong(outVertexId.rest);
      if edgeLabel.value !in edgeFactoryByLabel {
        return Err(NullPointer);
      }
      var edge :- NewEdge(id.value, edgeFactoryByLabel[edgeLabel.value], outVertexId.value, inVertexId.value, properties.value);
      edge.dirty := false;
      return Ok(edge);
    }
  }

  /**
    OndiskOverflow: two id-keyed stores, one for vertices and one for edges.
    The vertex serializer is not part of this model; it is given as a pair
    of functions over vertex snapshots.
  */
  class OndiskOverflow {
    const edgeSerializer: EdgeSerializer
    const serializeVertex: VertexState -> Result<Bytes>
    const deserializeVertex: Bytes -> Result<VertexState>
    var vertexMVMap: map<Long, Bytes>
    var edgeMVMap: map<Long, Bytes>

    /** Every stored edge record decodes, and carries the id it is stored under. */
    ghost predicate Valid()
      reads this
    {
      edgeSerializer.Valid() &&
      forall id :: id in edgeMVMap ==> Decode(edgeMVMap[id]).Ok? && Decode(edgeMVMap[id]).value.id == id
    }

    constructor (edgeSerializer: EdgeSerializer,
                 serializeVertex: VertexState -> Result<Bytes>,
                 deserializeVertex: Bytes -> Result<VertexState>)
      requires edgeSerializer.Valid()
      ensures Valid()
      ensures this.edgeSerializer == edgeSerializer
      ensures this.serializeVertex == serializeVertex && this.deserializeVertex == deserializeVertex
      ensures vertexMVMap == map[] && edgeMVMap == map[]
    {
      this.edgeSerializer := edgeSerializer;
      this.serializeVertex := serializeVertex;
      this.deserializeVertex := deserializeVertex;
      vertexMVMap := map[];
      edgeMVMap := map[];
    }

    /**
      The bytes persist writes for an element, or the serializer's failure;
      an edge serializes exactly when both its endpoints are stored
      vertices, and its bytes decode to its record.
    */
    function Serialized(element: TinkerElement, storedVertexIds: set<Long>): (r: Result<Bytes>)
      reads if element.VertexElement? then element.v as object else element.e as object
      requires element.EdgeElement? ==> element.e.Valid()
      ensures element.EdgeElement? ==>
        (r.Ok? <==> element.e.outVertexId in storedVertexIds && element.e.inVertexId in storedVertexIds)
      ensures element.EdgeElement? && r.Ok? ==> Decode(r.value) == Ok(RecordOf(element.e.State()))
      ensures element.EdgeElement? && r.Err? ==> r.error == NullPointer
    {
      match element
      case VertexElement(v) => serializeVertex(v.State())
      case EdgeElement(e) =>
        if e.outVertexId !in storedVertexIds || e.inVertexId !in storedVertexIds then Err(NullPointer)
        else
          var rec := RecordOf(e.State());
          DecodeOfEncode(rec, []);
          assert Encode(rec) + [] == Encode(rec);
          Ok(Encode(rec))
    }

    /**
      The failure persist reports for an element whose serialization
      failed: the vertex serializer's IOException is wrapped in a
      RuntimeException; the edge serializer's NullPointerException is not
      caught and escapes as it is.
    */
    static function PersistFailure(element: TinkerElement): (e: Error)
      ensures e == SerializationFailed <==> element.VertexElement?
      ensures e == NullPointer <==> element.EdgeElement?
    {
      if element.VertexElement? then SerializationFailed else NullPointer
    }

    /**
      persist: a vertex goes into the vertex store and an edge into the edge
      store, under the element's id, replacing what was there. When the
      serializer fails nothing is written: a vertex serializer's failure is
      raised as a RuntimeException, an edge whose endpoint is not among the
      stored vertices raises a NullPointerException.
    */
    method Persist(element: TinkerElement, storedVertexIds: set<Long>) returns (r: Outcome)
      requires Valid()
      requires element.EdgeElement? ==> element.e.Valid()
      modifies this
      ensures Valid()
      ensures Serialized(element, storedVertexIds).Err? ==>
        r == Fail(PersistFailure(element)) && vertexMVMap == old(vertexMVMap) && edgeMVMap == old(edgeMVMap)
      ensures Serialized(element, storedVertexIds).Ok? && element.VertexElement? ==>
        r == Pass && edgeMVMap == old(edgeMVMap) &&
        vertexMVMap == old(vertexMVMap)[element.Id() := Serialized(element, storedVertexIds).value]
      ensures Serialized(element, storedVertexIds).Ok? && element.EdgeElement? ==>
        r == Pass && vertexMVMap == old(vertexMVMap) &&
        edgeMVMap == old(edgeMVMap)[element.Id() := Serialized(element, storedVertexIds).value]
    {
      var id := element.Id();
      match element {
        case VertexElement(v) =>
          var bytes := serializeVertex(v.State());
          if bytes.Err? {
            return Fail(SerializationFailed);
          }
          vertexMVMap := vertexMVMap[id := bytes.value];
        case EdgeElement(e) =>
          var bytes := edgeSerializer.Serialize(e, storedVertexIds);
          if bytes.Err? {
            return Fail(bytes.error);
          }
          ghost var s := Serialized(element, storedVertexIds);
          edgeMVMap := edgeMVMap[id := bytes.value];
      }
      return Pass;
    }

    /**
      readVertex: deserializes what is stored under the id; an id never
      stored hands null to the deserializer, which throws.
    */
    function ReadVertex(id: Long): (r: Result<VertexState>)
      reads this
      ensures id !in vertexMVMap ==> r == Err(NullPointer)
      ensures id in vertexMVMap ==> r == deserializeVertex(vertexMVMap[id])
    {
      if id in vertexMVMap then deserializeVertex(vertexMVMap[id]) else Err(NullPointer)
    }

    /**
      readEdge: deserializes what is stored under the id in the edge store,
      so the edge it returns has that id; an id never stored hands null to
      the deserializer, which throws.
    */
    method ReadEdge(id: Long) returns (r: Result<SpecializedEdge>)
      requires Valid()
      ensures id !in edgeMVMap ==> r == Err(NullPointer)
      ensures id in edgeMVMap ==> (r.Ok? <==> edgeSerializer.Rebuild(edgeMVMap[id]).Ok?)
      ensures r.Ok? ==> fresh(r.value) && r.value.Valid() && r.value.id == id
      ensures r.Ok? ==> r.value.State() == edgeSerializer.Rebuild(edgeMVMap[id]).value
      ensures r.Ok? ==> !r.value.dirty && !r.value.removed && !r.value.locked
    {
      if id !in edgeMVMap {
        return Err(NullPointer);
      }
      r := edgeSerializer.Deserialize(edgeMVMap[id]);
    }

    /** removeVertex: only that id leaves, and only the vertex store. */
    method RemoveVertex(id: Long)
      requires Valid()
      modifies this
      ensures Valid()
      ensures vertexMVMap == old(vertexMVMap) - {id} && edgeMVMap == old(edgeMVMap)
    {
      vertexMVMap := vertexMVMap - {id};
    }

    /** removeEdge: only that id leaves, and only the edge store. */
    method RemoveEdge(id: Long)
      requires Valid()
      modifies this
      ensures Valid()
      ensures edgeMVMap == old(edgeMVMap) - {id} && vertexMVMap == old(vertexMVMap)
    {
      edgeMVMap := edgeMVMap - {id};
    }
  }

  /** The state of a soft reference manager: its counter and its queue of strongly held elements. */
  datatype Retention = Retention(observedElementCount: Int, strongRefs: seq<TinkerElement>)

  /** register, as a step on the state: count one more, and hold the element once the count passes the maximum. */
  function Registered(maxWildSoftReferences: Int, s: Retention, element: TinkerElement): (r: Retention)
    ensures s.observedElementCount < INT_MAX ==> r.observedElementCount == s.observedElementCount + 1
    ensures r.strongRefs == s.strongRefs + [element] <==> r.observedElementCount > maxWildSoftReferences
    ensures r.observedElementCount <= maxWildSoftReferences ==> r.strongRefs == s.strongRefs
  {
    var count := WrapInt(s.observedElementCount + 1);
    Retention(count, if count > maxWildSoftReferences then s.strongRefs + [element] else s.strongRefs)
  }

  /** register for each element in turn. */
  function RegisterAll(maxWildSoftReferences: Int, s: Retention, elements: seq<TinkerElement>): Retention
    decreases |elements|
  {
    if |elements| == 0 then s
    else RegisterAll(maxWildSoftReferences, Registered(maxWildSoftReferences, s, elements[0]), elements[1..])
  }

  /** The number of registrations, out of n, that are not held: the first max(0, min(n, maxWildSoftReferences)). */
  function Unheld(maxWildSoftReferences: Int, n: nat): (k: nat)
    ensures k <= n
  {
    if maxWildSoftReferences <= 0 then 0
    else if n < maxWildSoftReferences then n
    else maxWildSoftReferences
  }

  /** The state after registering xs from a fresh manager: count |xs|, the held suffix queued. */
  function Expected(maxWildSoftReferences: Int, xs: seq<TinkerElement>): (r: Retention)
    requires |xs| <= INT_MAX
    ensures r.observedElementCount == |xs|
    ensures r.strongRefs == xs[Unheld(maxWildSoftReferences, |xs|)..]
  {
    Retention(|xs|, xs[Unheld(maxWildSoftReferences, |xs|)..])
  }

  /** One registration keeps the queue equal to the held suffix of the registrations so far. */
  lemma RegisteredSuffix(maxWildSoftReferences: Int, done: seq<TinkerElement>, e: TinkerElement)
    requires |done| < INT_MAX
    ensures Registered(maxWildSoftReferences, Expected(maxWildSoftReferences, done), e)
         == Expected(maxWildSoftReferences, done + [e])
  {
    var n := |done|;
    var k := Unheld(maxWildSoftReferences, n);
    if n + 1 > maxWildSoftReferences {
      assert k == Unheld(maxWildSoftReferences, n + 1);
      assert done[k..] + [e] == (done + [e])[k..];
    } else {
      assert done[k..] == [] && (done + [e])[n + 1..] == [];
    }
  }

  lemma {:induction false} RegisterAllFrom(maxWildSoftReferences: Int, done: seq<TinkerElement>, elements: seq<TinkerElement>)
    requires |done| + |elements| <= INT_MAX
    ensures RegisterAll(maxWildSoftReferences, Expected(maxWildSoftReferences, done), elements)
         == Expected(maxWildSoftReferences, done + elements)
    decreases |elements|
  {
    var m := maxWildSoftReferences;
    if |elements| == 0 {
      assert done + elements == done;
    } else {
      var e, more := elements[0], elements[1..];
      calc {
        RegisterAll(m, Expected(m, done), elements);
        RegisterAll(m, Registered(m, Expected(m, done), e), more);
        { RegisteredSuffix(m, done, e); }
        RegisterAll(m, Expected(m, done + [e]), more);
        { RegisterAllFrom(m, done + [e], more); }
        Expected(m, (done + [e]) + more);
        { assert (done + [e]) + more == done + elements; }
        Expected(m, done + elements);
      }
    }
  }

  /**
    From a fresh manager, n registrations and no finalization leave the
    counter at n and the queue holding the last max(0, n - maxWildSoftReferences)
    elements, in registration order.
  */
  lemma RegisterAllFromFresh(maxWildSoftReferences: Int, elements: seq<TinkerElement>)
    requires |elements| <= INT_MAX
    ensures RegisterAll(maxWildSoftReferences, Retention(0, []), elements)
         == Retention(|elements|, elements[Unheld(maxWildSoftReferences, |elements|)..])
    ensures |RegisterAll(maxWildSoftReferences, Retention(0, []), elements).strongRefs|
         == if |elements| > maxWildSoftReferences then |elements| - (if maxWildSoftReferences > 0 then maxWildSoftReferences else 0) else 0
  {
    RegisterAllFrom(maxWildSoftReferences, [], elements);
    assert [] + elements == elements;
    assert Expected(maxWildSoftReferences, []) == Retention(0, []);
  }

  /** notifyObjectFinalized, as a step on the state: count one less, and release the oldest held element if any. */
  function Finalized(s: Retention): (r: Retention)
    ensures s.observedElementCount > INT_MIN ==> r.observedElementCount == s.observedElementCount - 1
    ensures |s.strongRefs| > 0 ==> r.strongRefs == s.strongRefs[1..]
    ensures |s.strongRefs| == 0 ==> r.strongRefs == []
  {
    Retention(WrapInt(s.observedElementCount - 1), if |s.strongRefs| > 0 then s.strongRefs[1..] else [])
  }

  /**
    SoftReferenceManager: lets at most maxWildSoftReferences elements be
    only softly reachable, by holding the rest in a queue.
  */
  class SoftReferenceManager {
    const maxWildSoftReferences: Int
    var observedElementCount: Int
    var strongRefs: seq<TinkerElement>
    const ondiskOverflow: OndiskOverflow

    function State(): Retention
      reads this
    {
      Retention(observedElementCount, strongRefs)
    }

    constructor (maxWildSoftReferences: Int, ondiskOverflow: OndiskOverflow)
      ensures this.maxWildSoftReferences == maxWildSoftReferences && this.ondiskOverflow == ondiskOverflow
      ensures State() == Retention(0, [])
    {
      this.maxWildSoftReferences := maxWildSoftReferences;
      this.ondiskOverflow := ondiskOverflow;
      observedElementCount := 0;
      strongRefs := [];
    }

    /** register: called when an element is created. */
    method Register(element: TinkerElement)
      modifies this
      ensures State() == Registered(maxWildSoftReferences, old(State()), element)
    {
      observedElementCount := WrapInt(observedElementCount + 1);
      if observedElementCount > maxWildSoftReferences {
        strongRefs := strongRefs + [element];
      }
    }

    /**
      notifyObjectFinalized: called when an element was finalized or cleared.
      The oldest strong reference is released, whichever element it is, and
      the finalized element is persisted, whether or not one was released.
      The persist failure escapes, with the count and queue already
      updated; storedVertexIds are the ids of the graph's stored vertices,
      where persist looks up an edge's endpoints.
    */
    method NotifyObjectFinalized(element: TinkerElement, storedVertexIds: set<Long>) returns (r: Outcome)
      requires ondiskOverflow.Valid()
      requires element.EdgeElement? ==> element.e.Valid()
      modifies this, ondiskOverflow
      ensures State() == Finalized(old(State()))
      ensures ondiskOverflow.Valid()
      ensures ondiskOverflow.Serialized(element, storedVertexIds).Err? ==>
        r == Fail(OndiskOverflow.PersistFailure(element)) && ondiskOverflow.vertexMVMap == old(ondiskOverflow.vertexMVMap)
        && ondiskOverflow.edgeMVMap == old(ondiskOverflow.edgeMVMap)
      ensures ondiskOverflow.Serialized(element, storedVertexIds).Ok? && element.VertexElement? ==>
        r == Pass && ondiskOverflow.edgeMVMap == old(ondiskOverflow.edgeMVMap)
        && ondiskOverflow.vertexMVMap == old(ondiskOverflow.vertexMVMap)[element.Id() := ondiskOverflow.Serialized(element, storedVertexIds).value]
      ensures ondiskOverflow.Serialized(element, storedVertexIds).Ok? && element.EdgeElement? ==>
        r == Pass && ondiskOverflow.vertexMVMap == old(ondiskOverflow.vertexMVMap)
        && ondiskOverflow.edgeMVMap == old(ondiskOverflow.edgeMVMap)[element.Id() := ondiskOverflow.Serialized(element, storedVertexIds).value]
    {
      observedElementCount := WrapInt(observedElementCount - 1);
      if |strongRefs| > 0 {
        strongRefs := strongRefs[1..];
      }
      r := ondiskOverflow.Persist(element, storedVertexIds);
    }
  }
}
