/**
  ElementRef for edges (EdgeRef): a handle with a fixed id and label that
  reaches its edge through a soft reference, which the garbage collector may
  clear; a cleared handle reloads the edge from the overflow store.
*/
module ElementRefs {
  import opened Wrappers
  import opened JavaLang
  import opened Elements
  import opened Storage
  import opened Graph

  /** What equals may be handed: null, an edge or a vertex (by id), or any other object. */
  datatype JavaRef = NullRef | EdgeRef(edgeId: Long) | VertexRef(vertexId: Long) | OtherRef

  /**
    Element equality as TinkerPop defines it for edges: the other object is
    an edge with the same id.
  */
  function EdgeEquals(e: SpecializedEdge, other: JavaRef): (r: bool)
    ensures r <==> other.EdgeRef? && other.edgeId == e.id
  {
    match other
    case EdgeRef(otherId) => otherId == e.id
    case _ => false
  }

  class ElementRef {
    /** id() and label() answer from these, without resolving the edge. */
    const id: Long
    const elementLabel: JString
    const graph: TinkerGraph
    /** The soft reference: None once cleared. */
    var softReference: Option<SpecializedEdge>

    /** The edge the reference holds, if any, is the one with the handle's id. */
    ghost predicate Valid()
      reads this, graph, graph.ondiskOverflow
    {
      graph.Valid() && (softReference.Some? ==> softReference.value.id == id)
    }

    /** ElementRef(element): the id and label of the edge, and a soft reference to it. */
    constructor FromElement(e: SpecializedEdge, graph: TinkerGraph)
      requires graph.Valid()
      ensures Valid()
      ensures id == e.id && elementLabel == e.Label() && this.graph == graph
      ensures softReference == Some(e)
    {
      id := e.id;
      elementLabel := e.Label();
      this.graph := graph;
      softReference := Some(e);
    }

    /**
      ElementRef(id, label, graph): the id and label given, and no edge yet;
      the first get reads the edge from the overflow store.
    */
    constructor (id: Long, elementLabel: JString, graph: TinkerGraph)
      requires graph.Valid()
      ensures Valid()
      ensures this.id == id && this.elementLabel == elementLabel && this.graph == graph
      ensures softReference == None
    {
      this.id := id;
      this.elementLabel := elementLabel;
      this.graph := graph;
      softReference := None;
    }

    /** The garbage collector clears the soft reference. */
    method Clear()
      modifies this
      ensures softReference == None
    {
      softReference := None;
    }

    /**
      The read half of get: the referenced edge when it was not cleared;
      otherwise the edge read from the overflow store under the handle's
      own id. Nothing changes.
    */
    method Resolve() returns (r: Result<SpecializedEdge>)
      requires Valid()
      ensures softReference.Some? ==> r == Ok(softReference.value)
      ensures softReference.None? && id !in graph.ondiskOverflow.edgeMVMap ==> r == Err(NullPointer)
      ensures softReference.None? && id in graph.ondiskOverflow.edgeMVMap ==>
        (r.Ok? <==> graph.ondiskOverflow.edgeSerializer.Rebuild(graph.ondiskOverflow.edgeMVMap[id]).Ok?)
      ensures softReference.None? && r.Ok? ==>
        fresh(r.value) && !r.value.locked && !r.value.dirty && !r.value.removed &&
        r.value.State() == graph.ondiskOverflow.edgeSerializer.Rebuild(graph.ondiskOverflow.edgeMVMap[id]).value
      ensures r.Ok? ==> r.value.id == id
    {
      if softReference.Some? {
        return Ok(softReference.value);
      }
      r := graph.ondiskOverflow.ReadEdge(id);
    }

    /**
      get: the edge as Resolve finds it; an edge read from the overflow
      store becomes the new soft reference. A failed read leaves the soft
      reference as it was.
    */
    method Get() returns (r: Result<SpecializedEdge>)
      requires Valid()
      modifies this
      ensures Valid()
      ensures old(softReference).Some? ==> r == Ok(old(softReference).value) && softReference == old(softReference)
      ensures old(softReference).None? && id !in graph.ondiskOverflow.edgeMVMap ==> r == Err(NullPointer)
      ensures old(softReference).None? && id in graph.ondiskOverflow.edgeMVMap ==>
        (r.Ok? <==> graph.ondiskOverflow.edgeSerializer.Rebuild(graph.ondiskOverflow.edgeMVMap[id]).Ok?)
      ensures old(softReference).None? && r.Ok? ==>
        fresh(r.value) && softReference == Some(r.value) && !r.value.locked && !r.value.dirty && !r.value.removed &&
        r.value.State() == graph.ondiskOverflow.edgeSerializer.Rebuild(graph.ondiskOverflow.edgeMVMap[id]).value
      ensures r.Ok? ==> r.value.id == id
      ensures r.Err? ==> softReference == old(softReference)
    {
      r := Resolve();
      if r.Ok? {
        softReference := Some(r.value);
      }
    }

    /**
      remove: resolves the edge as get does and removes it from the graph
      as SpecializedTinkerEdge.remove does. `resolved` names the edge that
      get produced, if any: when get fails nothing else happens; otherwise
      the edge becomes the soft reference, and the outcome and every change
      to the graph are those of TinkerGraph.RemoveEdge on that edge. The
      soft reference is set after the removal rather than before it, which
      ends in the same state, since the removal never reads the handle.
    */
    method Remove() returns (r: Outcome, ghost resolved: Option<SpecializedEdge>)
      requires Valid()
      requires softReference.Some? ==> !softReference.value.locked
      modifies this, graph, graph.ondiskOverflow, graph.vertices.Values
      modifies if softReference.Some? then {softReference.value} else {}
      ensures graph.Valid()
      ensures old(softReference).Some? ==> resolved == old(softReference)
      ensures old(softReference).None? ==>
        (resolved.Some? <==>
          (old(id in graph.ondiskOverflow.edgeMVMap) &&
           graph.ondiskOverflow.edgeSerializer.Rebuild(old(graph.ondiskOverflow.edgeMVMap)[id]).Ok?))
      ensures old(softReference).None? && resolved.Some? ==>
        fresh(resolved.value) &&
        resolved.value.State() == graph.ondiskOverflow.edgeSerializer.Rebuild(old(graph.ondiskOverflow.edgeMVMap)[id]).value
      ensures old(softReference).None? && old(id !in graph.ondiskOverflow.edgeMVMap) ==> r == Fail(NullPointer)
      ensures resolved.None? ==>
        r.Fail? && softReference == old(softReference) && unchanged(graph, graph.ondiskOverflow) &&
        forall v :: v in graph.vertices.Values ==> unchanged(v)
      ensures resolved.Some? ==> resolved.value.id == id && softReference == resolved
      ensures resolved.Some? ==> graph.EdgeRemoved(resolved.value, r)
      ensures resolved.Some? && r.Fail? ==> resolved.value.locked
      ensures old(softReference).None? && resolved.Some? && r.Fail? ==> !resolved.value.removed
      ensures old(softReference).Some? ==> resolved.value.fields == old(softReference.value.fields)
      ensures old(softReference).Some? && r.Fail? ==>
        softReference.value.removed == old(softReference.value.removed) &&
        softReference.value.dirty == old(softReference.value.dirty)
      ensures old(softReference).None? && resolved.Some? && r.Fail? ==> !resolved.value.dirty
      ensures resolved.Some? && r == Pass ==> resolved.value.removed && resolved.value.dirty && !resolved.value.locked
    {
      var got := Resolve();
      if got.Err? {
        return Fail(got.error), None;
      }
      r := RemoveResolved(got.value);
      resolved := Some(got.value);
    }

    /** The second half of remove: the resolved edge leaves the graph and is the soft reference. */
    method RemoveResolved(e: SpecializedEdge) returns (r: Outcome)
      requires Valid() && e.id == id && !e.locked
      modifies this, graph, graph.ondiskOverflow, graph.vertices.Values, e
      ensures graph.Valid() && softReference == Some(e) && e.fields == old(e.fields)
      ensures graph.EdgeRemoved(e, r)
      ensures r.Fail? ==> e.locked && e.removed == old(e.removed) && e.dirty == old(e.dirty)
      ensures r == Pass ==> e.removed && e.dirty && !e.locked
    {
      r := graph.RemoveEdge(e);
      softReference := Some(e);
    }

    /**
      hashCode: the hash of the edge get resolves, which is the hash of the
      handle's own id; the soft reference ends as get leaves it.
    */
    method HashCode() returns (r: Result<Int>)
      requires Valid()
      modifies this
      ensures Valid()
      ensures r.Ok? ==> r.value == LongHashCode(id)
      ensures old(softReference).Some? ==> r.Ok? && softReference == old(softReference)
      ensures old(softReference).None? && id !in graph.ondiskOverflow.edgeMVMap ==> r.Err? && r.error == NullPointer
      ensures old(softReference).None? ==>
        (r.Ok? <==>
          (id in graph.ondiskOverflow.edgeMVMap && graph.ondiskOverflow.edgeSerializer.Rebuild(graph.ondiskOverflow.edgeMVMap[id]).Ok?))
      ensures old(softReference).None? && r.Ok? ==>
        softReference.Some? && fresh(softReference.value) && softReference.value.id == id &&
        !softReference.value.locked && !softReference.value.dirty && !softReference.value.removed &&
        softReference.value.State() == graph.ondiskOverflow.edgeSerializer.Rebuild(graph.ondiskOverflow.edgeMVMap[id]).value
      ensures r.Err? ==> softReference == old(softReference)
    {
      var resolved := Get();
      if resolved.Err? {
        return Err(resolved.error);
      }
      return Ok(LongHashCode(resolved.value.id));
    }

    /**
      equals: whether the edge get resolves equals the object, i.e. the
      object is an edge with the handle's id; the soft reference ends as get
      leaves it.
    */
    method Equals(other: JavaRef) returns (r: Result<bool>)
      requires Valid()
      modifies this
      ensures Valid()
      ensures r.Ok? ==> (r.value <==> other == EdgeRef(id))
      ensures old(softReference).Some? ==> r.Ok? && softReference == old(softReference)
      ensures old(softReference).None? && id !in graph.ondiskOverflow.edgeMVMap ==> r.Err? && r.error == NullPointer
      ensures old(softReference).None? ==>
        (r.Ok? <==>
          (id in graph.ondiskOverflow.edgeMVMap && graph.ondiskOverflow.edgeSerializer.Rebuild(graph.ondiskOverflow.edgeMVMap[id]).Ok?))
      ensures old(softReference).None? && r.Ok? ==>
        softReference.Some? && fresh(softReference.value) && softReference.value.id == id &&
        !softReference.value.locked && !softReference.value.dirty && !softReference.value.removed &&
        softReference.value.State() == graph.ondiskOverflow.edgeSerializer.Rebuild(graph.ondiskOverflow.edgeMVMap[id]).value
      ensures r.Err? ==> softReference == old(softReference)
    {
      var resolved := Get();
      if resolved.Err? {
        return Err(resolved.error);
      }
      return Ok(EdgeEquals(resolved.value, other));
    }
  }
}
