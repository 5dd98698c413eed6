/** Optional values, results and the exceptions of the graph store, as values. */
module Wrappers {

  /** A Java reference that may be null. */
  datatype Option<T> = None | Some(value: T)

  /** The Java exceptions thrown by the modelled code, one constructor per kind of throw site. */
  datatype Error =
    | ArgumentCanNotBeNull          // Graph.Exceptions.argumentCanNotBeNull
    | ElementAlreadyRemoved         // IllegalStateException from elementAlreadyRemoved
    | EdgeLabelNotAllowed           // IllegalArgumentException: label not in the allowed set
    | VertexWithIdAlreadyExists     // Graph.Exceptions.vertexWithIdAlreadyExists
    | EdgeWithIdAlreadyExists       // Graph.Exceptions.edgeWithIdAlreadyExists
    | NoFactoryForLabel             // IllegalArgumentException: specialized graph, unknown label
    | IdNotConvertible              // IllegalArgumentException from an id manager's convert
    | NumberFormat                  // NumberFormatException from Long.parseLong / Integer.parseInt
    | IdArgsMustBeEitherIdOrElement // Graph.Exceptions.idArgsMustBeEitherIdOrElement
    | PropertyNotSupported          // RuntimeException: key not (yet) supported by the schema
    | ClassCast                     // ClassCastException: value of the wrong type for a field
    | InvalidPropertyKey            // IllegalArgumentException from ElementHelper.validateProperty
    | NullPointer                   // NullPointerException: a lookup that found nothing was dereferenced
    | MalformedRecord               // the unpacker met bytes it cannot read (an IOException)
    | SerializationFailed           // RuntimeException wrapping the serializer's IOException

  /** The outcome of a Java call that returns a value or throws. */
  datatype Result<T> = Ok(value: T) | Err(error: Error)
  {
    predicate IsFailure() {
      Err?
    }

    function PropagateFailure<U>(): Result<U>
      requires Err?
    {
      Err(error)
    }

    function Extract(): T
      requires Ok?
    {
      value
    }
  }

  /** The outcome of a Java call that returns nothing or throws. */
  datatype Outcome = Pass | Fail(error: Error)
}
