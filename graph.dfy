/**
  The graph: its element maps, its id counter, its label indexes, the
  factories of its specialized elements and its overflow machinery; adding
  vertices and edges, removing an edge, and clearing the graph.

  The graph always uses the LONG id manager (selectIdManager returns it
  whatever the configuration says). Vertex.addEdge and Edge.remove need the
  graph's maps, so they are graph methods here, with the vertex or edge as
  a parameter.
*/
module Graph {
  import opened Wrappers
  import opened JavaLang
  import opened MsgPack
  import opened Schema
  import opened Adjacency
  import opened IdManager
  import opened Elements
  import opened Storage
  import opened GratefulDead

  /** Vertex.DEFAULT_LABEL, for a vertex added without a label. */
  const DEFAULT_LABEL: JString := "vertex"

  /**
    The factory registration of open(): each factory is put under its
    label, in list order, so a later factory for the same label replaces an
    earlier one.
  */
  method ByLabel<S(==)>(factories: seq<S>, labelOf: S -> JString) returns (m: map<JString, S>)
    ensures forall i :: 0 <= i < |factories| ==> labelOf(factories[i]) in m
    ensures forall l :: l in m ==> labelOf(m[l]) == l && m[l] in factories
    ensures forall i :: 0 <= i < |factories| && LastWithLabel(factories, labelOf, i) ==>
      m[labelOf(factories[i])] == factories[i]
  {
    m := map[];
    var k := 0;
    while k < |factories|
      invariant 0 <= k <= |factories|
      invariant forall i :: 0 <= i < k ==> labelOf(factories[i]) in m
      invariant forall l :: l in m ==> labelOf(m[l]) == l && m[l] in factories[..k]
      invariant forall i :: 0 <= i < k && LastWithLabel(factories[..k], labelOf, i) ==>
        m[labelOf(factories[i])] == factories[i]
    {
      m := m[labelOf(factories[k]) := factories[k]];
      k := k + 1;
    }
    assert factories[..k] == factories;
  }

  /** No factory after position i has the label of the one at i. */
  ghost predicate LastWithLabel<S>(factories: seq<S>, labelOf: S -> JString, i: nat)
    requires i < |factories|
  {
    forall j :: i < j < |factories| ==> labelOf(factories[j]) != labelOf(factories[i])
  }

  function VertexLabelOf(s: VertexSchema): JString {
    s.elementLabel
  }

  function EdgeLabelOf(s: EdgeSchema): JString {
    s.elementLabel
  }

  /** Which label index getElementRefsByLabel works on. */
  datatype ElementKind = VertexKind | EdgeKind

  class TinkerGraph {
    var currentId: Long
    /** The vertices by id (with the vertex cache of the overflow mode). */
    var vertices: map<Long, SpecializedVertex>
    /** The edges by id (with the edge cache of the overflow mode). */
    var edges: map<Long, SpecializedEdge>
    /** The ids of the vertices of each label. */
    var vertexIdsByLabel: map<JString, set<Long>>
    /** The ids of the edges of each label. */
    var edgeIdsByLabel: map<JString, set<Long>>
    const usesSpecializedElements: bool
    const specializedVertexFactoryByLabel: map<JString, VertexSchema>
    const specializedEdgeFactoryByLabel: map<JString, EdgeSchema>
    const ondiskOverflowEnabled: bool
    const edgeSerializer: EdgeSerializer
    const ondiskOverflow: OndiskOverflow
    const softReferenceManager: SoftReferenceManager

    /** Every factory is registered under its label and has a well-formed schema. */
    predicate FactoriesValid() {
      (forall l :: l in specializedVertexFactoryByLabel ==>
        specializedVertexFactoryByLabel[l].elementLabel == l &&
        WellFormed(specializedVertexFactoryByLabel[l].properties)) &&
      (forall l :: l in specializedEdgeFactoryByLabel ==>
        specializedEdgeFactoryByLabel[l].elementLabel == l &&
        WellFormed(specializedEdgeFactoryByLabel[l].properties))
    }

    ghost predicate Valid()
      reads this, ondiskOverflow
    {
      FactoriesValid() &&
      usesSpecializedElements &&
      edgeSerializer.edgeFactoryByLabel == specializedEdgeFactoryByLabel &&
      ondiskOverflow.edgeSerializer == edgeSerializer &&
      ondiskOverflow.Valid() &&
      (forall id :: id in vertices ==> vertices[id].id == id) &&
      (forall id :: id in edges ==> edges[id].id == id)
    }

    /** No vertex or edge id is above the id counter. */
    ghost predicate IdsBelowCounter()
      reads this
    {
      (forall id :: id in vertices ==> id <= currentId) &&
      (forall id :: id in edges ==> id <= currentId)
    }

    /**
      open(configuration, vertexFactories, edgeFactories): a graph with the
      given factories, each under its own label and the last one winning
      where labels repeat, the LONG id manager and the counter at -1; the edge
      serializer knows the edge factories and the overflow store uses it.
    */
    constructor (vertexFactories: seq<VertexSchema>, edgeFactories: seq<EdgeSchema>,
                 ondiskOverflowEnabled: bool, maxWildSoftReferences: Int,
                 serializeVertex: VertexState -> Result<Bytes>,
                 deserializeVertex: Bytes -> Result<VertexState>)
      requires |vertexFactories| > 0 || |edgeFactories| > 0
      requires forall s :: s in vertexFactories ==> WellFormed(s.properties)
      requires forall s :: s in edgeFactories ==> WellFormed(s.properties)
      ensures Valid() && IdsBelowCounter()
      ensures currentId == -1 && vertices == map[] && edges == map[]
      ensures vertexIdsByLabel == map[] && edgeIdsByLabel == map[]
      ensures this.ondiskOverflowEnabled == ondiskOverflowEnabled
      ensures forall s :: s in vertexFactories ==> s.elementLabel in specializedVertexFactoryByLabel
      ensures forall l :: l in specializedVertexFactoryByLabel ==>
        specializedVertexFactoryByLabel[l].elementLabel == l && specializedVertexFactoryByLabel[l] in vertexFactories
      ensures forall i :: 0 <= i < |vertexFactories| && LastWithLabel(vertexFactories, VertexLabelOf, i) ==>
        specializedVertexFactoryByLabel[vertexFactories[i].elementLabel] == vertexFactories[i]
      ensures forall s :: s in edgeFactories ==> s.elementLabel in specializedEdgeFactoryByLabel
      ensures forall l :: l in specializedEdgeFactoryByLabel ==>
        specializedEdgeFactoryByLabel[l].elementLabel == l && specializedEdgeFactoryByLabel[l] in edgeFactories
      ensures forall i :: 0 <= i < |edgeFactories| && LastWithLabel(edgeFactories, EdgeLabelOf, i) ==>
        specializedEdgeFactoryByLabel[edgeFactories[i].elementLabel] == edgeFactories[i]
      ensures softReferenceManager.maxWildSoftReferences == maxWildSoftReferences
      ensures fresh(edgeSerializer) && fresh(ondiskOverflow) && fresh(softReferenceManager)
    {
      var vertexFactoryByLabel := ByLabel(vertexFactories, VertexLabelOf);
      var edgeFactoryByLabel := ByLabel(edgeFactories, EdgeLabelOf);
      assert forall i :: 0 <= i < |vertexFactories| ==> vertexFactories[i].elementLabel in vertexFactoryByLabel;
      assert forall i :: 0 <= i < |edgeFactories| ==> edgeFactories[i].elementLabel in edgeFactoryByLabel;
      var serializer := new EdgeSerializer(edgeFactoryByLabel);
      var overflow := new OndiskOverflow(serializer, serializeVertex, deserializeVertex);
      var manager := new SoftReferenceManager(maxWildSoftReferences, overflow);
      currentId := -1;
      vertices := map[];
      edges := map[];
      vertexIdsByLabel := map[];
      edgeIdsByLabel := map[];
      usesSpecializedElements := true;
      specializedVertexFactoryByLabel := vertexFactoryByLabel;
      specializedEdgeFactoryByLabel := edgeFactoryByLabel;
      this.ondiskOverflowEnabled := ondiskOverflowEnabled;
      edgeSerializer := serializer;
      ondiskOverflow := overflow;
      softReferenceManager := manager;
    }

    /** vertexById: the vertex stored under the id, if any. */
    function VertexById(id: Long): (r: Option<SpecializedVertex>)
      reads this, ondiskOverflow
      requires Valid()
      ensures r.Some? <==> id in vertices
      ensures r.Some? ==> r.value.id == id
    {
      if id in vertices then Some(vertices[id]) else None
    }

    /** outVertex(): the vertex looked up by the edge's out-vertex id. */
    function OutVertex(e: SpecializedEdge): (r: Option<SpecializedVertex>)
      reads this, ondiskOverflow
      requires Valid()
      ensures r.Some? ==> r.value.id == e.outVertexId
      ensures r.None? <==> e.outVertexId !in vertices
    {
      VertexById(e.outVertexId)
    }

    /** inVertex(): the vertex looked up by the edge's in-vertex id. */
    function InVertex(e: SpecializedEdge): (r: Option<SpecializedVertex>)
      reads this, ondiskOverflow
      requires Valid()
      ensures r.Some? ==> r.value.id == e.inVertexId
      ensures r.None? <==> e.inVertexId !in vertices
    {
      VertexById(e.inVertexId)
    }

    /** LONG.getNextId: increment the counter and hand out its new value. */
    method GetNextId() returns (id: Long)
      modifies this
      ensures (currentId, LongObj(id)) == NextId(LONG, old(currentId))
      ensures old(currentId) < LONG_MAX ==> id == old(currentId) + 1
      ensures vertices == old(vertices) && edges == old(edges)
      ensures vertexIdsByLabel == old(vertexIdsByLabel) && edgeIdsByLabel == old(edgeIdsByLabel)
    {
      currentId := WrapLong(currentId + 1);
      id := currentId;
    }

    /**
      getElementRefsByLabel: the id set of the label in the chosen index,
      created empty only when the label is absent; a label already present
      leaves the index as it is.
    */
    method GetElementRefsByLabel(kind: ElementKind, elementLabel: JString) returns (ids: set<Long>)
      modifies this
      ensures kind == VertexKind ==>
        edgeIdsByLabel == old(edgeIdsByLabel) &&
        vertexIdsByLabel == (if elementLabel in old(vertexIdsByLabel) then old(vertexIdsByLabel) else old(vertexIdsByLabel)[elementLabel := {}]) &&
        ids == vertexIdsByLabel[elementLabel]
      ensures kind == EdgeKind ==>
        vertexIdsByLabel == old(vertexIdsByLabel) &&
        edgeIdsByLabel == (if elementLabel in old(edgeIdsByLabel) then old(edgeIdsByLabel) else old(edgeIdsByLabel)[elementLabel := {}]) &&
        ids == edgeIdsByLabel[elementLabel]
      ensures currentId == old(currentId) && vertices == old(vertices) && edges == old(edges)
    {
      if kind == VertexKind {
        if elementLabel !in vertexIdsByLabel {
          vertexIdsByLabel := vertexIdsByLabel[elementLabel := {}];
        }
        ids := vertexIdsByLabel[elementLabel];
      } else {
        if elementLabel !in edgeIdsByLabel {
          edgeIdsByLabel := edgeIdsByLabel[elementLabel := {}];
        }
        ids := edgeIdsByLabel[elementLabel];
      }
    }

    /** getElementRefsByLabel(...).add(id): the id joins its label's set in the chosen index. */
    method IndexId(kind: ElementKind, elementLabel: JString, idValue: Long)
      requires Valid()
      modifies this
      ensures Valid()
      ensures kind == VertexKind ==>
        vertexIdsByLabel == old(vertexIdsByLabel)[elementLabel := ListedIds(old(vertexIdsByLabel), elementLabel) + {idValue}] &&
        edgeIdsByLabel == old(edgeIdsByLabel)
      ensures kind == EdgeKind ==>
        edgeIdsByLabel == old(edgeIdsByLabel)[elementLabel := ListedIds(old(edgeIdsByLabel), elementLabel) + {idValue}] &&
        vertexIdsByLabel == old(vertexIdsByLabel)
      ensures currentId == old(currentId) && vertices == old(vertices) && edges == old(edges)
    {
      var ids := GetElementRefsByLabel(kind, elementLabel);
      if kind == VertexKind {
        vertexIdsByLabel := vertexIdsByLabel[elementLabel := ids + {idValue}];
      } else {
        edgeIdsByLabel := edgeIdsByLabel[elementLabel := ids + {idValue}];
      }
    }

    /**
      The id step of addVertex and addEdge: an explicit id already taken is
      refused; no id draws the next one; then the counter is raised to the
      id if it is below it.
    */
    method AllocateIdFor(converted: JavaObject, taken: set<Long>, duplicate: Error) returns (r: Result<Long>)
      requires converted.Null? || converted.LongObj?
      modifies this
      ensures AllocateId(converted, taken, old(currentId), duplicate).Ok? ==>
        r == Ok(AllocateId(converted, taken, old(currentId), duplicate).value.0) &&
        currentId == AllocateId(converted, taken, old(currentId), duplicate).value.1
      ensures AllocateId(converted, taken, old(currentId), duplicate).Err? ==>
        r == Err(duplicate) && unchanged(this)
      ensures vertices == old(vertices) && edges == old(edges)
      ensures vertexIdsByLabel == old(vertexIdsByLabel) && edgeIdsByLabel == old(edgeIdsByLabel)
    {
      var idValue: Long;
      if converted.LongObj? {
        if converted.l in taken {
          return Err(duplicate);
        }
        idValue := converted.l;
      } else {
        idValue := GetNextId();
      }
      if idValue > currentId {
        currentId := idValue;
      }
      return Ok(idValue);
    }

    /**
      The end of addVertex, once the id is allocated: a label without a
      factory is refused; otherwise its factory creates the vertex, the
      properties are attached and the vertex is stored (and, with overflow,
      its id indexed under its label).
    */
    method StoreNewVertex(idValue: Long, elementLabel: JString, props: seq<Property>) returns (r: Result<SpecializedVertex>)
      requires Valid()
      modifies this
      ensures Valid()
      ensures edges == old(edges) && edgeIdsByLabel == old(edgeIdsByLabel) && currentId == old(currentId)
      ensures r.Err? ==> vertices == old(vertices) && vertexIdsByLabel == old(vertexIdsByLabel)
      ensures elementLabel !in specializedVertexFactoryByLabel ==> r == Err(NoFactoryForLabel)
      ensures elementLabel in specializedVertexFactoryByLabel ==>
        var schema := specializedVertexFactoryByLabel[elementLabel];
        match AttachAll(schema.properties, map[], props)
        case Err(e) => r == Err(e)
        case Ok(fields) =>
          r.Ok? && fresh(r.value) && r.value.Valid() && !r.value.locked && !r.value.removed && r.value.dirty &&
          r.value.State() == VertexState(idValue, schema, fields, map[], map[]) &&
          vertices == old(vertices)[idValue := r.value] &&
          vertexIdsByLabel == if ondiskOverflowEnabled
            then old(vertexIdsByLabel)[elementLabel := ListedIds(old(vertexIdsByLabel), elementLabel) + {idValue}]
            else old(vertexIdsByLabel)
    {
      if elementLabel !in specializedVertexFactoryByLabel {
        return Err(NoFactoryForLabel);
      }
      var vertex :- NewVertex(idValue, specializedVertexFactoryByLabel[elementLabel], props);
      if ondiskOverflowEnabled {
        IndexId(VertexKind, elementLabel, idValue);
      }
      vertices := vertices[idValue := vertex];
      return Ok(vertex);
    }

    /**
      addVertex(keyValues): convert the id with the LONG manager and
      allocate it (refusing an explicit id in use, raising the counter),
      then StoreNewVertex. A label without a factory is refused after the
      counter was raised.
    */
    method AddVertex(id: JavaObject, vertexLabel: Option<JString>, props: seq<Property>)
      returns (r: Result<SpecializedVertex>)
      requires Valid()
      modifies this
      ensures Valid()
      ensures edges == old(edges) && edgeIdsByLabel == old(edgeIdsByLabel)
      ensures old(IdsBelowCounter()) && old(currentId) < LONG_MAX ==> IdsBelowCounter()
      ensures Convert(LONG, id).Err? ==> r == Err(Convert(LONG, id).error) && unchanged(this)
      ensures Convert(LONG, id).Ok? ==>
        var elementLabel := if vertexLabel.Some? then vertexLabel.value else DEFAULT_LABEL;
        match AllocateId(Convert(LONG, id).value, old(vertices).Keys, old(currentId), VertexWithIdAlreadyExists)
        case Err(e) => r == Err(e) && unchanged(this)
        case Ok(newId) =>
          currentId == newId.1 &&
          if elementLabel !in specializedVertexFactoryByLabel then
            r == Err(NoFactoryForLabel) && vertices == old(vertices) && vertexIdsByLabel == old(vertexIdsByLabel)
          else
            var schema := specializedVertexFactoryByLabel[elementLabel];
            match AttachAll(schema.properties, map[], props)
            case Err(e) => r == Err(e) && vertices == old(vertices) && vertexIdsByLabel == old(vertexIdsByLabel)
            case Ok(fields) =>
              r.Ok? && fresh(r.value) && r.value.Valid() && !r.value.locked && !r.value.removed &&
              r.value.State() == VertexState(newId.0, schema, fields, map[], map[]) &&
              vertices == old(vertices)[newId.0 := r.value] &&
              vertexIdsByLabel == if ondiskOverflowEnabled
                then old(vertexIdsByLabel)[elementLabel := ListedIds(old(vertexIdsByLabel), elementLabel) + {newId.0}]
                else old(vertexIdsByLabel)
    {
      var converted :- Convert(LONG, id);
      var elementLabel := if vertexLabel.Some? then vertexLabel.value else DEFAULT_LABEL;
      var idValue :- AllocateIdFor(converted, vertices.Keys, VertexWithIdAlreadyExists);
      r := StoreNewVertex(idValue, elementLabel, props);
    }

    /**
      The middle of addEdge: allocate the id, have the factory create the
      edge and attach its properties, store it and index its id under its
      label.
    */
    method StoreNewEdge(schema: EdgeSchema, outVertexId: Long, inVertexId: Long, converted: JavaObject,
                        props: seq<Property>) returns (r: Result<SpecializedEdge>)
      requires Valid() && WellFormed(schema.properties)
      requires converted.Null? || converted.LongObj?
      modifies this
      ensures Valid()
      ensures vertices == old(vertices) && vertexIdsByLabel == old(vertexIdsByLabel)
      ensures old(IdsBelowCounter()) && old(currentId) < LONG_MAX ==> IdsBelowCounter()
      ensures r.Err? ==> edges == old(edges) && edgeIdsByLabel == old(edgeIdsByLabel)
      ensures match AllocateId(converted, old(edges).Keys, old(currentId), EdgeWithIdAlreadyExists)
        case Err(e) => r == Err(e) && unchanged(this)
        case Ok(newId) =>
          currentId == newId.1 &&
          match AttachAll(schema.properties, map[], props)
          case Err(e) => r == Err(e)
          case Ok(fields) =>
            r.Ok? && fresh(r.value) && r.value.Valid() && !r.value.removed && !r.value.locked && r.value.dirty &&
            r.value.State() == EdgeState(newId.0, schema, outVertexId, inVertexId, fields) &&
            edges == old(edges)[newId.0 := r.value] &&
            edgeIdsByLabel == old(edgeIdsByLabel)[schema.elementLabel := ListedIds(old(edgeIdsByLabel), schema.elementLabel) + {newId.0}]
    {
      var idValue :- AllocateIdFor(converted, edges.Keys, EdgeWithIdAlreadyExists);
      var edge :- NewEdge(idValue, schema, outVertexId, inVertexId, props);
      edges := edges[idValue := edge];
      IndexId(EdgeKind, schema.elementLabel, idValue);
      return Ok(edge);
    }

    /**
      SpecializedTinkerVertex.addEdge, called on outVertex: the refusals of
      AddEdgeRefusal come before anything changes; then the label's factory
      is looked up and the id converted; StoreNewEdge creates, stores and
      indexes the edge; and outVertex.Connect links it to both endpoints.
      Only that last step takes the out-vertex's lock, so only a call that
      gets that far needs it free.
    */
    method AddEdge(outVertex: SpecializedVertex, edgeLabel: JString, inVertex: SpecializedVertex?,
                   id: JavaObject, props: seq<Property>) returns (r: Result<SpecializedEdge>)
      requires Valid()
      requires (AddEdgeRefusal(outVertex.removed, outVertex.schema, edgeLabel, InSchema(inVertex)).None? &&
                edgeLabel in specializedEdgeFactoryByLabel && Convert(LONG, id).Ok? &&
                AllocateId(Convert(LONG, id).value, edges.Keys, currentId, EdgeWithIdAlreadyExists).Ok? &&
                AttachAll(specializedEdgeFactoryByLabel[edgeLabel].properties, map[], props).Ok?) ==> !outVertex.locked
      modifies this, outVertex, inVertex
      ensures Valid()
      ensures vertices == old(vertices) && vertexIdsByLabel == old(vertexIdsByLabel)
      ensures old(IdsBelowCounter()) && old(currentId) < LONG_MAX ==> IdsBelowCounter()
      ensures r.Err? ==> edges == old(edges) && edgeIdsByLabel == old(edgeIdsByLabel)
      ensures r.Err? ==> unchanged(outVertex) && (inVertex != null ==> unchanged(inVertex))
      ensures AddEdgeRefusal(old(outVertex.removed), outVertex.schema, edgeLabel, InSchema(inVertex)).Some? ==>
        r == Err(AddEdgeRefusal(old(outVertex.removed), outVertex.schema, edgeLabel, InSchema(inVertex)).value) &&
        unchanged(this)
      ensures AddEdgeRefusal(old(outVertex.removed), outVertex.schema, edgeLabel, InSchema(inVertex)).None? ==>
        if edgeLabel !in specializedEdgeFactoryByLabel then r == Err(NoFactoryForLabel) && unchanged(this)
        else if Convert(LONG, id).Err? then r == Err(Convert(LONG, id).error) && unchanged(this)
        else
          var schema := specializedEdgeFactoryByLabel[edgeLabel];
          match AllocateId(Convert(LONG, id).value, old(edges).Keys, old(currentId), EdgeWithIdAlreadyExists)
          case Err(e) => r == Err(e) && unchanged(this)
          case Ok(newId) =>
            currentId == newId.1 &&
            match AttachAll(schema.properties, map[], props)
            case Err(e) => r == Err(e)
            case Ok(fields) =>
              r.Ok? && fresh(r.value) && r.value.Valid() && !r.value.removed && !r.value.locked &&
              r.value.State() == EdgeState(newId.0, schema, outVertex.id, inVertex.id, fields) &&
              edges == old(edges)[newId.0 := r.value] &&
              edgeIdsByLabel == old(edgeIdsByLabel)[edgeLabel := ListedIds(old(edgeIdsByLabel), edgeLabel) + {newId.0}]
      ensures r.Ok? ==> inVertex != null
      ensures r.Ok? ==>
        outVertex.outEdgesByLabel == StoreEdge(old(outVertex.outEdgesByLabel), edgeLabel, r.value.id) &&
        inVertex.inEdgesByLabel == StoreEdge(old(inVertex.inEdgesByLabel), edgeLabel, r.value.id) &&
        outVertex.dirty && !outVertex.locked && outVertex.fields == old(outVertex.fields)
      ensures r.Ok? && inVertex != outVertex ==>
        outVertex.inEdgesByLabel == old(outVertex.inEdgesByLabel) &&
        inVertex.outEdgesByLabel == old(inVertex.outEdgesByLabel) &&
        inVertex.fields == old(inVertex.fields) && inVertex.dirty == old(inVertex.dirty)
    {
      var refusal := AddEdgeRefusal(outVertex.removed, outVertex.schema, edgeLabel, InSchema(inVertex));
      if refusal.Some? {
        return Err(refusal.value);
      }
      if edgeLabel !in specializedEdgeFactoryByLabel {
        return Err(NoFactoryForLabel);
      }
      var converted :- Convert(LONG, id);
      var edge :- StoreNewEdge(specializedEdgeFactoryByLabel[edgeLabel], outVertex.id, inVertex.id, converted, props);
      outVertex.Connect(inVertex, edge);
      return Ok(edge);
    }

    /**
      The first half of SpecializedTinkerEdge.remove: detach the edge from
      its out-vertex, then from its in-vertex; a missing endpoint is a null
      dereference.
    */
    method DetachFromEndpoints(e: SpecializedEdge) returns (r: Outcome)
      requires Valid()
      modifies vertices.Values
      ensures r == Pass <==> e.outVertexId in vertices && e.inVertexId in vertices
      ensures r.Fail? ==> r.error == NullPointer
      ensures e.outVertexId in vertices ==>
        vertices[e.outVertexId].outEdgesByLabel == Detach(old(vertices[e.outVertexId].outEdgesByLabel), e.Label(), e.id)
      ensures e.outVertexId in vertices && e.inVertexId in vertices && e.inVertexId != e.outVertexId ==>
        vertices[e.inVertexId].inEdgesByLabel == Detach(old(vertices[e.inVertexId].inEdgesByLabel), e.Label(), e.id)
      ensures e.outVertexId in vertices && e.inVertexId == e.outVertexId ==>
        vertices[e.outVertexId].inEdgesByLabel == Detach(old(vertices[e.outVertexId].inEdgesByLabel), e.Label(), e.id)
      ensures e.outVertexId in vertices && e.inVertexId != e.outVertexId ==>
        vertices[e.outVertexId].inEdgesByLabel == old(vertices[e.outVertexId].inEdgesByLabel)
      ensures e.inVertexId in vertices && e.inVertexId != e.outVertexId ==>
        vertices[e.inVertexId].outEdgesByLabel == old(vertices[e.inVertexId].outEdgesByLabel)
      ensures e.outVertexId !in vertices ==> forall v :: v in vertices.Values ==> unchanged(v)
      ensures forall v :: v in vertices.Values && v.id != e.outVertexId && v.id != e.inVertexId ==> unchanged(v)
      ensures forall v :: v in vertices.Values ==>
        v.fields == old(v.fields) && v.removed == old(v.removed) && v.dirty == old(v.dirty) && v.locked == old(v.locked)
    {
      var outVertex := VertexById(e.outVertexId);
      var inVertex := VertexById(e.inVertexId);
      if outVertex.None? {
        return Fail(NullPointer);
      }
      outVertex.value.RemoveOutEdge(e.Label(), e.id);
      if inVertex.None? {
        return Fail(NullPointer);
      }
      inVertex.value.RemoveInEdge(e.Label(), e.id);
      return Pass;
    }

    /**
      The second half of SpecializedTinkerEdge.remove: drop the edge from
      the edge map and, with overflow, from its label's id set (a missing
      set is a null dereference) and from the overflow store.
    */
    method Forget(e: SpecializedEdge) returns (r: Outcome)
      requires Valid()
      modifies this, ondiskOverflow
      ensures Valid()
      ensures vertices == old(vertices) && vertexIdsByLabel == old(vertexIdsByLabel) && currentId == old(currentId)
      ensures edges == old(edges) - {e.id}
      ensures r == Pass <==> !ondiskOverflowEnabled || e.Label() in old(edgeIdsByLabel)
      ensures r.Fail? ==> r.error == NullPointer
      ensures r == Pass && ondiskOverflowEnabled ==>
        edgeIdsByLabel == old(edgeIdsByLabel)[e.Label() := old(edgeIdsByLabel)[e.Label()] - {e.id}] &&
        ondiskOverflow.edgeMVMap == old(ondiskOverflow.edgeMVMap) - {e.id} &&
        ondiskOverflow.vertexMVMap == old(ondiskOverflow.vertexMVMap)
      ensures !ondiskOverflowEnabled || r.Fail? ==> edgeIdsByLabel == old(edgeIdsByLabel) && unchanged(ondiskOverflow)
    {
      edges := edges - {e.id};
      if ondiskOverflowEnabled {
        if e.Label() !in edgeIdsByLabel {
          return Fail(NullPointer);
        }
        edgeIdsByLabel := edgeIdsByLabel[e.Label() := edgeIdsByLabel[e.Label()] - {e.id}];
        ondiskOverflow.RemoveEdge(e.id);
      }
      return Pass;
    }

    /**
      What removing edge e leaves in the graph, against the graph before:
      the outcome is Pass exactly when both endpoints are stored and, with
      overflow, the label has an id set, and a failure is a null
      dereference. The out-vertex loses e from its outgoing list and, when
      the in-vertex is stored, the in-vertex loses it from its incoming list
      (for a self-loop both lists of the one vertex); the other list of each
      endpoint and every other vertex stay as they were, and a missing
      out-vertex leaves every vertex as it was. The edge leaves the edge map
      once both endpoints are found, and, on success with overflow, its
      label's id set and the overflow store. Nothing else changes.
    */
    twostate predicate EdgeRemoved(new e: SpecializedEdge, r: Outcome)
      reads this, ondiskOverflow, vertices.Values
    {
      var outId, inId, l := e.outVertexId, e.inVertexId, e.Label();
      vertices == old(vertices) && vertexIdsByLabel == old(vertexIdsByLabel) && currentId == old(currentId) &&
      (r == Pass <==> outId in vertices && inId in vertices && (ondiskOverflowEnabled ==> l in old(edgeIdsByLabel))) &&
      (r.Fail? ==> r.error == NullPointer) &&
      (outId in vertices ==>
        vertices[outId].outEdgesByLabel == Detach(old(vertices[outId].outEdgesByLabel), l, e.id)) &&
      (outId in vertices && inId in vertices && inId != outId ==>
        vertices[inId].inEdgesByLabel == Detach(old(vertices[inId].inEdgesByLabel), l, e.id)) &&
      (outId in vertices && inId == outId ==>
        vertices[outId].inEdgesByLabel == Detach(old(vertices[outId].inEdgesByLabel), l, e.id)) &&
      (outId in vertices && inId != outId ==>
        vertices[outId].inEdgesByLabel == old(vertices[outId].inEdgesByLabel)) &&
      (inId in vertices && inId != outId ==>
        vertices[inId].outEdgesByLabel == old(vertices[inId].outEdgesByLabel)) &&
      (outId !in vertices ==> forall v :: v in vertices.Values ==> unchanged(v)) &&
      (forall v :: v in vertices.Values && v.id != outId && v.id != inId ==> unchanged(v)) &&
      edges == (if outId in vertices && inId in vertices then old(edges) - {e.id} else old(edges)) &&
      (r == Pass && ondiskOverflowEnabled ==>
        edgeIdsByLabel == old(edgeIdsByLabel)[l := old(edgeIdsByLabel)[l] - {e.id}] &&
        ondiskOverflow.edgeMVMap == old(ondiskOverflow.edgeMVMap) - {e.id} &&
        ondiskOverflow.vertexMVMap == old(ondiskOverflow.vertexMVMap)) &&
      (!ondiskOverflowEnabled || r.Fail? ==> edgeIdsByLabel == old(edgeIdsByLabel) && unchanged(ondiskOverflow))
    }

    /**
      SpecializedTinkerEdge.remove: under the edge's lock, detach it from
      both endpoints and forget it; then mark it removed and dirty and
      release the lock. A null dereference on the way leaves the lock held
      and the edge not marked removed.
    */
    method RemoveEdge(e: SpecializedEdge) returns (r: Outcome)
      requires Valid() && !e.locked
      modifies this, e, ondiskOverflow, vertices.Values
      ensures Valid()
      ensures EdgeRemoved(e, r)
      ensures e.fields == old(e.fields)
      ensures r.Fail? ==> e.locked && e.removed == old(e.removed) && e.dirty == old(e.dirty)
      ensures r == Pass ==> e.removed && e.dirty && !e.locked
    {
      e.locked := true;
      r := Unlink(e);
      if r == Pass {
        e.MarkRemoved();
      }
    }

    /** What remove does to the graph while the edge's lock is held: detach it from its endpoints, then forget it. */
    method Unlink(e: SpecializedEdge) returns (r: Outcome)
      requires Valid()
      modifies this, ondiskOverflow, vertices.Values
      ensures Valid()
      ensures EdgeRemoved(e, r)
    {
      r := DetachFromEndpoints(e);
      if r.Fail? {
        return;
      }
      r := Forget(e);
    }

    /**
      clear: empties the element maps, both label indexes and both overflow
      stores, and puts the id counter back to -1.
    */
    method Clear()
      requires Valid()
      modifies this, ondiskOverflow
      ensures Valid() && IdsBelowCounter()
      ensures vertices == map[] && edges == map[] && vertexIdsByLabel == map[] && edgeIdsByLabel == map[]
      ensures ondiskOverflow.vertexMVMap == map[] && ondiskOverflow.edgeMVMap == map[]
      ensures currentId == -1
    {
      vertices := map[];
      vertexIdsByLabel := map[];
      edges := map[];
      edgeIdsByLabel := map[];
      ondiskOverflow.vertexMVMap := map[];
      ondiskOverflow.edgeMVMap := map[];
      currentId := -1;
    }
  }

  /**
    The id an element gets and the id counter afterwards: an explicit id
    is refused when taken and otherwise kept, and the counter becomes the
    larger of the two; without an id the counter is incremented and its new
    value used. Ids are then fresh, and the counter stays at or above every
    id, as long as the counter has not reached the largest long.
  */
  function AllocateId(converted: JavaObject, taken: set<Long>, currentId: Long, duplicate: Error): (r: Result<(Long, Long)>)
    requires converted.Null? || converted.LongObj?
    ensures converted.LongObj? ==> (r.Ok? <==> converted.l !in taken)
    ensures converted.LongObj? && r.Ok? ==> r.value.0 == converted.l
    ensures converted.Null? ==> r.Ok?
    ensures r.Err? ==> r.error == duplicate
    ensures r.Ok? && (converted.LongObj? || currentId < LONG_MAX) ==> currentId <= r.value.1 && r.value.0 <= r.value.1
    ensures r.Ok? && converted.Null? && currentId < LONG_MAX ==> r.value.0 == currentId + 1
    ensures r.Ok? && converted.LongObj? ==> r.value.1 == (if converted.l > currentId then converted.l else currentId)
    ensures r.Ok? && converted.Null? ==> r.value.1 == r.value.0 == NextId(LONG, currentId).0
    ensures r.Ok? && currentId < LONG_MAX && (forall t :: t in taken ==> t <= currentId) ==> r.value.0 !in taken
  {
    if converted.LongObj? then
      if converted.l in taken then Err(duplicate)
      else Ok((converted.l, if converted.l > currentId then converted.l else currentId))
    else
      var next := NextId(LONG, currentId).0;
      Ok((next, next))
  }

  /**
    The checks addEdge makes before any change, in order: a null target, a
    removed source, a label the source may not send, a label the target may
    not receive.
  */
  function AddEdgeRefusal(outRemoved: bool, outSchema: VertexSchema, edgeLabel: JString, inSchema: Option<VertexSchema>)
    : (r: Option<Error>)
    ensures r.None? <==>
      inSchema.Some? && !outRemoved && edgeLabel in outSchema.allowedOutEdgeLabels &&
      edgeLabel in inSchema.value.allowedInEdgeLabels
    ensures inSchema.None? ==> r == Some(ArgumentCanNotBeNull)
    ensures inSchema.Some? && outRemoved ==> r == Some(ElementAlreadyRemoved)
    ensures r.Some? && inSchema.Some? && !outRemoved ==> r == Some(EdgeLabelNotAllowed)
  {
    if inSchema.None? then Some(ArgumentCanNotBeNull)
    else if outRemoved then Some(ElementAlreadyRemoved)
    else if edgeLabel !in outSchema.allowedOutEdgeLabels then Some(EdgeLabelNotAllowed)
    else if edgeLabel !in inSchema.value.allowedInEdgeLabels then Some(EdgeLabelNotAllowed)
    else None
  }

  /** A Song allows no incoming label, so addEdge refuses every edge whose target is a Song. */
  lemma NoEdgeTargetsASong(outRemoved: bool, outSchema: VertexSchema, edgeLabel: JString)
    ensures AddEdgeRefusal(outRemoved, outSchema, edgeLabel, Some(SONG)).Some?
  {
  }

  /** The schema of a target vertex, or nothing for a null target. */
  function InSchema(inVertex: SpecializedVertex?): Option<VertexSchema> {
    if inVertex == null then None else Some(inVertex.schema)
  }

  /** The id set a label index holds for a label, empty when the label is absent. */
  function ListedIds(index: map<JString, set<Long>>, elementLabel: JString): set<Long> {
    if elementLabel in index then index[elementLabel] else {}
  }
}
