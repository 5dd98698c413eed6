# TinkerGraph memory-relief layer in Dafny

This project models the part of the TinkerGraph fork (clccc/tinkergraph-gremlin) that lets a graph of specialized elements outgrow the heap. It has five parts:

- **Specialized elements.** `SpecializedTinkerVertex` and `SpecializedTinkerEdge` with their concrete Grateful Dead schemas `Song` and `SungBy`. Each has a closed key set, label-to-list adjacency, a `removed` flag, a dirty flag (`modifiedSinceLastSerialization`) and a modification lock.
- **The edge serializer.** A five-field MessagePack record: id, label, property map, out-vertex id and in-vertex id.
- **The overflow store.** Two id-keyed byte maps, one for vertices and one for edges.
- **The soft reference manager.** It decides how many elements stay strongly held.
- **The element handle** (`ElementRef`, edge instantiation). It resolves a soft reference or reloads the edge from the store.

The graph itself (`TinkerGraph`) is modelled for id allocation, `addVertex`, `addEdge`, edge removal, the label indexes and `clear`.

Modules, in dependency order:

| file | module | contents |
|---|---|---|
| wrappers.dfy | Wrappers | `Option`, `Result`, `Outcome`; Java exceptions as `Error` values |
| java_lang.dfy | JavaLang | Java `long`/`int` ranges and wrap-around, `Long.toString`, `Long.parseLong`, `Integer.parseInt`, `Long.hashCode` |
| msgpack.dfy | MsgPack | the MessagePack subset the record uses: the int family as `packLong` chooses it, the str family with UTF-8, the map header |
| schema.dfy | Schema | property schemas, fields, and the property operations the specialized elements share |
| adjacency.dfy | Adjacency | label-to-edge-id lists, detaching an edge, `edges(direction, labels...)` as written and as intended |
| edge_codec.dfy | EdgeCodec | the edge record, its encoding and decoding, the round trip |
| grateful_dead.dfy | GratefulDead | the `Song` and `SungBy` schemas and facts about them |
| id_manager.dfy | IdManager | `DefaultIdManager` LONG / INTEGER / ANY, `validateHomogenousIds` |
| elements.dfy | Elements | classes `SpecializedVertex` and `SpecializedEdge` |
| storage.dfy | Storage | classes `EdgeSerializer`, `OndiskOverflow`, `SoftReferenceManager`; the retention state machine as functions |
| graph.dfy | Graph | class `TinkerGraph` |
| element_ref.dfy | ElementRefs | class `ElementRef` |

## Modelling choices

Each of these resolves a point where the code cannot be read literally.

- **Undeclared fields in `TinkerGraph`.** The class refers to several fields it never declares.
  - `vertexCache` and `edgeCache` are the `vertices` and `edges` maps.
  - `onDiskVertexOverflow` and `onDiskEdgeOverflow` are the two maps of the overflow store.
  - `vertexIdsByLabel`/`verticesByLabel` form one label index, and `edgeIdsByLabel`/`edgesByLabel`/`getElementsByLabel` the other. Each holds sets of ids.
- **`removeOutEdge`/`removeInEdge`.** `SpecializedTinkerEdge.remove` calls these, but the vertex class does not define them. They are modelled as deleting every entry with the edge's id from the list of the edge's label (`Adjacency.Detach`).
- **The three-argument `ElementRef` constructor.** It leaves the soft reference null, so the first `get()` would throw. The model starts such a handle as cleared, so the first `get()` reads the edge from the overflow store.
- **Edge endpoints.** An edge keeps its endpoints as ids (`outVertexId`, `inVertexId`). `EdgeSerializer.deserialize` passes vertex references to factories that take ids, so the model passes the ids. `EdgeSerializer.serialize` does not read the ids directly: it asks `outVertex()` and `inVertex()`, which look the endpoints up among the graph's stored vertices. So `Serialize`, `Serialized`, `Persist` and `NotifyObjectFinalized` take the set of stored vertex ids, and an edge with an endpoint outside it fails with `NullPointer` and writes nothing.
- **The overflow store's serializers.** `TinkerGraph`'s constructor builds the store before the serializers are assigned, so it would receive nulls. The model hands the store the graph's own edge serializer.
  - The vertex serializer is not part of this model. It is given to the store as a pair of functions over vertex snapshots.
- **Id managers.** `selectIdManager` returns `LONG` whatever the configuration says, so the graph always converts and draws ids with `LONG`.
- **Per-operation ensures.** `Vertex.addEdge` and `Edge.remove` update the graph's maps, and Dafny modules cannot import each other in a cycle. So both are `TinkerGraph` methods taking the vertex or edge as a parameter (`AddEdge`, `RemoveEdge`). Each is split into helper methods so that every step has its own contract. What an edge removal does to the graph is stated once, as the two-state predicate `EdgeRemoved`, and both `RemoveEdge` and `ElementRef.Remove` promise it.
- **The lock.** The model is single-threaded, so the modification lock is a boolean. Acquiring it requires that it is free. Only the paths that reach the acquire require it: a throw before the lock is taken needs nothing of it.
- **Exceptions.** Every Java exception is an `Err`/`Fail` value, and the code after a throw is not executed. This covers the missing `finally` blocks: the lock stays held and the dirty flag stays set when an update throws.
- **Property keys.** Keys are compared by value throughout. `Song.specificProperties` compares `songType` and `performances` with `==`, by reference (Song.java:71,73), and its comment asks callers to pass the class's own constant strings. The model treats equal strings as the same key.
- **Property values.** They are Java `String` or `Integer`, the only types the modelled schemas use. Their record encoding is a MessagePack map from str keys to str or int values.

## Model

| member | source | states |
|---|---|---|
| JavaLang.WrapLong | src/main/java/org/apache/tinkerpop/gremlin/tinkergraph/structure/TinkerGraph.java:713 | a Java long overflow: the value itself when in range, and always congruent to it modulo 2^64 |
| JavaLang.WrapInt | src/main/java/org/apache/tinkerpop/gremlin/tinkergraph/storage/SoftReferenceManager.java:47 | a Java int overflow: the value itself when in range, and always congruent to it modulo 2^32 |
| JavaLang.LongToString | src/main/java/org/apache/tinkerpop/gremlin/tinkergraph/structure/SpecializedTinkerEdge.java:129 | the decimal spelling of a long is non-empty, with digits only except a leading minus |
| JavaLang.ParseLongOfLongToString | src/main/java/org/apache/tinkerpop/gremlin/tinkergraph/structure/TinkerGraph.java:725 | Long.parseLong reads back every long Long.toString spells |
| JavaLang.ParseIntOfToString | src/main/java/org/apache/tinkerpop/gremlin/tinkergraph/structure/TinkerGraph.java:755 | Integer.parseInt reads back every int's decimal spelling |
| MsgPack.PackLong | src/main/java/org/apache/tinkerpop/gremlin/tinkergraph/storage/EdgeSerializer.java:43 | packLong writes 1, 2, 3, 5 or 9 bytes, and a single byte exactly for -32..127 |
| MsgPack.UnpackLongOfPackLong | src/main/java/org/apache/tinkerpop/gremlin/tinkergraph/storage/EdgeSerializer.java:56 | unpackLong reads back exactly the long packLong wrote and stops where it ended, whatever follows |
| MsgPack.DecodeUtf8OfUtf8 | src/main/java/org/apache/tinkerpop/gremlin/tinkergraph/storage/EdgeSerializer.java:44 | UTF-8 decoding inverts UTF-8 encoding for every string |
| MsgPack.UnpackStringOfPackString | src/main/java/org/apache/tinkerpop/gremlin/tinkergraph/storage/EdgeSerializer.java:57 | unpackString reads back exactly the string packString wrote, whatever follows |
| MsgPack.UnpackMapHeaderOfMapHeader | src/main/java/org/apache/tinkerpop/gremlin/tinkergraph/storage/EdgeSerializer.java:58 | the map header reads back as the entry count it was written with |
| EdgeCodec.PackValue | src/main/java/org/apache/tinkerpop/gremlin/tinkergraph/storage/EdgeSerializer.java:45 | a String value starts with a str format byte and an Integer with an int format byte, so the first byte tells the type |
| EdgeCodec.UnpackValueOfPackValue | src/main/java/org/apache/tinkerpop/gremlin/tinkergraph/storage/EdgeSerializer.java:58 | a property value reads back as itself, with its type |
| EdgeCodec.UnpackEntriesOfPackEntries | src/main/java/org/apache/tinkerpop/gremlin/tinkergraph/storage/EdgeSerializer.java:58 | the map entries read back as the same properties in the same order |
| EdgeCodec.UnpackPropertiesOfPackProperties | src/main/java/org/apache/tinkerpop/gremlin/tinkergraph/storage/EdgeSerializer.java:58 | the property map (header and entries) reads back as the same property list |
| EdgeCodec.Encode | src/main/java/org/apache/tinkerpop/gremlin/tinkergraph/storage/EdgeSerializer.java:41-51 | serialize's byte layout, at least one byte per field; DecodeOfEncode and EncodeInjective state what it means |
| EdgeCodec.Decode | src/main/java/org/apache/tinkerpop/gremlin/tinkergraph/storage/EdgeSerializer.java:54-60 | deserialize's field reads in packing order; it succeeds only on at least five bytes, and DecodeOfEncode makes it the inverse of Encode |
| EdgeCodec.DecodeOfEncode | src/main/java/org/apache/tinkerpop/gremlin/tinkergraph/storage/EdgeSerializer.java:41-60 | reading the five fields in order gives back the record written, whatever bytes follow |
| EdgeCodec.EncodeInjective | src/main/java/org/apache/tinkerpop/gremlin/tinkergraph/storage/EdgeSerializer.java:41-50 | two records with the same bytes are the same record |
| Schema.SpecificProperty | src/main/java/org/apache/tinkerpop/gremlin/tinkergraph/structure/SpecializedTinkerVertex.java:63-70 | a property is found exactly when the schema key's field is non-null, and it holds that field's value, of the key's type |
| Schema.UpdateSpecificProperty | src/test/java/org/apache/tinkerpop/gremlin/tinkergraph/structure/specialized/gratefuldead/Song.java:81-93 | a key outside the schema is unsupported and a mistyped value fails the cast; otherwise that key reads back the new value and every other key reads as before |
| Schema.RemoveSpecificProperty | src/test/java/org/apache/tinkerpop/gremlin/tinkergraph/structure/specialized/gratefuldead/Song.java:97-107 | a key outside the schema is unsupported; otherwise that key reads as absent and every other key as before |
| Schema.Collect | src/main/java/org/apache/tinkerpop/gremlin/tinkergraph/structure/SpecializedTinkerEdge.java:69 | the properties of a key list are exactly the present ones among those keys, at most one per key |
| Schema.Properties | src/main/java/org/apache/tinkerpop/gremlin/tinkergraph/structure/SpecializedTinkerEdge.java:61-70 | no keys: exactly the present properties among the schema keys; keys: exactly the present ones among those asked for |
| Schema.SetProperty | src/main/java/org/apache/tinkerpop/gremlin/tinkergraph/structure/SpecializedTinkerEdge.java:76-80 | an illegal key (empty or hidden) is refused before the update; a legal key gets exactly updateSpecificProperty's outcome, which succeeds iff the key is in the schema with a value of its type; a success keeps the fields conforming |
| Schema.AttachAll | src/main/java/org/apache/tinkerpop/gremlin/tinkergraph/storage/EdgeSerializer.java:66 | attaching properties one by one keeps the fields conforming to the schema |
| Schema.LastValue | src/main/java/org/apache/tinkerpop/gremlin/tinkergraph/storage/EdgeSerializer.java:66 | the value of the last property with a key: none iff no property has that key, otherwise a property with that key and value that no later one overrides |
| Schema.AttachAllFailure | src/main/java/org/apache/tinkerpop/gremlin/tinkergraph/storage/EdgeSerializer.java:66 | attaching fails iff some property is not attachable (legal schema key, value of its type), and then with the error setting the first such property gives |
| Schema.AttachAllValues | src/main/java/org/apache/tinkerpop/gremlin/tinkergraph/storage/EdgeSerializer.java:66 | after a successful attach a key is non-null iff it was before or some property names it, and holds the last value given for it, otherwise its old value |
| Schema.AttachAllOfProperties | src/main/java/org/apache/tinkerpop/gremlin/tinkergraph/storage/EdgeSerializer.java:66 | attaching the properties read off an element, to a fresh element of the same schema, gives back its fields |
| Adjacency.RemoveAll | src/main/java/org/apache/tinkerpop/gremlin/tinkergraph/structure/SpecializedTinkerEdge.java:109-110 | the list loses every entry equal to the id and keeps every other entry with its multiplicity |
| Adjacency.RemoveAllAppend | src/main/java/org/apache/tinkerpop/gremlin/tinkergraph/structure/SpecializedTinkerEdge.java:109-110 | removal is piecewise over concatenation, so the remaining entries keep their order |
| Adjacency.Detach | src/main/java/org/apache/tinkerpop/gremlin/tinkergraph/structure/SpecializedTinkerEdge.java:109-110 | the list of the id's label becomes RemoveAll of the old list (the id leaves, other entries stay in order); other labels are unchanged |
| Adjacency.Flatten | src/main/java/org/apache/tinkerpop/gremlin/tinkergraph/structure/SpecializedTinkerVertex.java:197-198 | the concatenated lists hold exactly the ids of all lists |
| Adjacency.LabelledAsWritten | src/main/java/org/apache/tinkerpop/gremlin/tinkergraph/structure/SpecializedTinkerVertex.java:200-207 | as written, the labelled query reads the outgoing map for OUT and BOTH and the incoming map for IN; it throws NullPointerException exactly when a requested label has no list there, and otherwise yields exactly the ids of those lists |
| Adjacency.LabelledIntended | src/main/java/org/apache/tinkerpop/gremlin/tinkergraph/structure/SpecializedTinkerVertex.java:200-207 | with labels, exactly the ids of those labels on the requested sides |
| Adjacency.EdgesAsWritten | src/main/java/org/apache/tinkerpop/gremlin/tinkergraph/structure/SpecializedTinkerVertex.java:192-211 | edges() as written: with no labels it succeeds with every id of both the outgoing and the incoming lists, whatever the direction; with labels it fails (null dereference) iff a label is missing from the side it reads, and otherwise yields exactly the ids listed under the labels on that side |
| Adjacency.EdgesIntended | src/main/java/org/apache/tinkerpop/gremlin/tinkergraph/structure/SpecializedTinkerVertex.java:193-211 | edges(direction, labels) yields exactly the ids stored under a requested label on a requested side |
| Adjacency.AsWrittenIgnoresDirection | src/main/java/org/apache/tinkerpop/gremlin/tinkergraph/structure/SpecializedTinkerVertex.java:196-198 | as written, IN with no labels also yields outgoing edges |
| Adjacency.AsWrittenBothSkipsIncoming | src/main/java/org/apache/tinkerpop/gremlin/tinkergraph/structure/SpecializedTinkerVertex.java:202-206 | as written, BOTH with a label never reads the incoming list |
| Adjacency.AsWrittenAbsentLabelFails | src/main/java/org/apache/tinkerpop/gremlin/tinkergraph/structure/SpecializedTinkerVertex.java:203 | as written, a requested label with no list throws NullPointerException |
| Adjacency.StoredEdgeIsListed | src/main/java/org/apache/tinkerpop/gremlin/tinkergraph/structure/SpecializedTinkerVertex.java:183-189 | an edge appended to its label's list is yielded on that side, with no labels or with its label |
| Adjacency.DetachedEdgeIsNotListed | src/main/java/org/apache/tinkerpop/gremlin/tinkergraph/structure/SpecializedTinkerEdge.java:109-110 | a detached edge is no longer yielded for its label on that side |
| Elements.RecordOf | src/main/java/org/apache/tinkerpop/gremlin/tinkergraph/storage/EdgeSerializer.java:43-47 | the record holds the edge's id, label, endpoint ids, and exactly its present properties |
| Elements.SpecializedEdge.constructor | src/main/java/org/apache/tinkerpop/gremlin/tinkergraph/structure/SpecializedTinkerEdge.java:40-45 | a new edge has the given id, schema and endpoint ids, all fields null, and is dirty, unlocked and not removed |
| Elements.SpecializedEdge.Keys | src/main/java/org/apache/tinkerpop/gremlin/tinkergraph/structure/SpecializedTinkerEdge.java:47-50 | keys() is exactly the key set the edge was built with |
| Elements.SpecializedEdge.Property | src/main/java/org/apache/tinkerpop/gremlin/tinkergraph/structure/SpecializedTinkerEdge.java:52-55 | a property is present exactly for a key of the edge with a non-null field, and carries that field |
| Elements.SpecializedEdge.Properties | src/main/java/org/apache/tinkerpop/gremlin/tinkergraph/structure/SpecializedTinkerEdge.java:60-71 | every property yielded is present on the edge; one key yields at most one |
| Elements.SpecializedEdge.SetProperty | src/main/java/org/apache/tinkerpop/gremlin/tinkergraph/structure/SpecializedTinkerEdge.java:73-84 | a removed edge or an illegal key throws with nothing changed, the lock included, and only the path past those checks needs the lock free; otherwise dirty; success sets the field and releases the lock; a failing update keeps the lock held |
| Elements.SpecializedEdge.RemoveProperty | src/main/java/org/apache/tinkerpop/gremlin/tinkergraph/structure/SpecializedTinkerEdge.java:88-93 | marks dirty; a schema key's field becomes null and the lock is released; another key throws with the lock held |
| Elements.SpecializedEdge.AttachProperties | src/main/java/org/apache/tinkerpop/gremlin/tinkergraph/storage/EdgeSerializer.java:66 | succeeds exactly when attaching all properties does, leaving exactly the attached fields; the first failure is reported |
| Elements.SpecializedVertex.constructor | src/main/java/org/apache/tinkerpop/gremlin/tinkergraph/structure/SpecializedTinkerVertex.java:45-47 | a new vertex has the given id and schema, no fields, no edges, and is dirty, unlocked and not removed |
| Elements.SpecializedVertex.Keys | src/main/java/org/apache/tinkerpop/gremlin/tinkergraph/structure/SpecializedTinkerVertex.java:49-52 | keys() is exactly the schema's specificKeys() |
| Elements.SpecializedVertex.Property | src/main/java/org/apache/tinkerpop/gremlin/tinkergraph/structure/SpecializedTinkerVertex.java:54-58 | empty on a removed vertex; otherwise present exactly for a non-null field, carrying it |
| Elements.SpecializedVertex.Properties | src/main/java/org/apache/tinkerpop/gremlin/tinkergraph/structure/SpecializedTinkerVertex.java:75-91 | empty on a removed vertex; every property yielded is present; one key yields at most one |
| Elements.SpecializedVertex.SetProperty | src/main/java/org/apache/tinkerpop/gremlin/tinkergraph/structure/SpecializedTinkerVertex.java:93-104 | a removed vertex or an illegal key throws with nothing changed, the lock included, and only the path past those checks needs the lock free; otherwise dirty before the update; success reads back the value and releases the lock; adjacency unchanged |
| Elements.SpecializedVertex.RemoveProperty | src/main/java/org/apache/tinkerpop/gremlin/tinkergraph/structure/SpecializedTinkerVertex.java:109-114 | marks dirty; a schema key's field becomes null and the lock is released; another key throws with the lock held |
| Elements.SpecializedVertex.AttachProperties | src/main/java/org/apache/tinkerpop/gremlin/tinkergraph/structure/TinkerGraph.java:257 | succeeds exactly when attaching all properties does, leaving exactly the attached fields; adjacency unchanged |
| Elements.SpecializedVertex.StoreOutEdge | src/main/java/org/apache/tinkerpop/gremlin/tinkergraph/structure/SpecializedTinkerVertex.java:174-176 | the edge id is appended to the outgoing list of its label; nothing else changes |
| Elements.SpecializedVertex.StoreInEdge | src/main/java/org/apache/tinkerpop/gremlin/tinkergraph/structure/SpecializedTinkerVertex.java:179-181 | the edge id is appended to the incoming list of its label; nothing else changes |
| Elements.SpecializedVertex.Connect | src/main/java/org/apache/tinkerpop/gremlin/tinkergraph/structure/SpecializedTinkerVertex.java:157-161 | under the lock, the edge goes into this vertex's outgoing and the target's incoming list; then dirty and unlocked |
| Elements.SpecializedVertex.RemoveOutEdge | src/main/java/org/apache/tinkerpop/gremlin/tinkergraph/structure/SpecializedTinkerEdge.java:109 | the edge id leaves the outgoing list of its label; nothing else changes |
| Elements.SpecializedVertex.RemoveInEdge | src/main/java/org/apache/tinkerpop/gremlin/tinkergraph/structure/SpecializedTinkerEdge.java:110 | the edge id leaves the incoming list of its label; nothing else changes |
| Elements.SpecializedVertex.Edges | src/main/java/org/apache/tinkerpop/gremlin/tinkergraph/structure/SpecializedTinkerVertex.java:192-211 | edges() as intended, not as written (see ## Findings): the vertex's edges for a direction and labels are exactly the stored ids of the requested side(s) and labels, as Adjacency.EdgesIntended defines them |
| Elements.StoreEdge | src/main/java/org/apache/tinkerpop/gremlin/tinkergraph/structure/SpecializedTinkerVertex.java:183-189 | the label's list, created empty if new, gains the id at its end; other labels keep their lists |
| Elements.NewVertex | src/test/java/org/apache/tinkerpop/gremlin/tinkergraph/structure/specialized/gratefuldead/Song.java:116-118 | the factory creates a fresh vertex of the schema with the given id, and the properties are attached; their first failure is reported |
| Elements.NewEdge | src/test/java/org/apache/tinkerpop/gremlin/tinkergraph/structure/specialized/gratefuldead/SungBy.java:61-63 | the factory creates a fresh edge with the given id and endpoint ids, and the properties are attached; their first failure is reported |
| GratefulDead.SongSchemaWellFormed | src/test/java/org/apache/tinkerpop/gremlin/tinkergraph/structure/specialized/gratefuldead/Song.java:34-37 | the Song key set is exactly {name, songType, performances} |
| GratefulDead.SungBySchemaWellFormed | src/test/java/org/apache/tinkerpop/gremlin/tinkergraph/structure/specialized/gratefuldead/SungBy.java:33 | the SungBy key set is empty |
| GratefulDead.SongUpdate | src/test/java/org/apache/tinkerpop/gremlin/tinkergraph/structure/specialized/gratefuldead/Song.java:81-93 | a Song key takes a value of its type into its own field only; a mistyped value fails the cast; other keys are unsupported |
| GratefulDead.SongRemove | src/test/java/org/apache/tinkerpop/gremlin/tinkergraph/structure/specialized/gratefuldead/Song.java:97-107 | a Song key nulls its own field only; other keys are unsupported |
| GratefulDead.SongSpecificProperty | src/test/java/org/apache/tinkerpop/gremlin/tinkergraph/structure/specialized/gratefuldead/Song.java:67-78 | a property exists iff the key names a Song field that is non-null, and it carries that field |
| GratefulDead.SungByHasNoProperties | src/test/java/org/apache/tinkerpop/gremlin/tinkergraph/structure/specialized/gratefuldead/SungBy.java:40-52 | a SungBy never has a property, and every update and removal throws |
| IdManager.LongValue | src/main/java/org/apache/tinkerpop/gremlin/tinkergraph/structure/TinkerGraph.java:723 | Number.longValue is exact for every number in the long range |
| IdManager.IntValue | src/main/java/org/apache/tinkerpop/gremlin/tinkergraph/structure/TinkerGraph.java:753 | Number.intValue is exact for every number in the int range |
| IdManager.Convert | src/main/java/org/apache/tinkerpop/gremlin/tinkergraph/structure/TinkerGraph.java:717-728 | null stays null; LONG yields only null or a Long and maps each Number to its longValue; INTEGER likewise with int; failures are IllegalArgument or NumberFormat only |
| IdManager.NextId | src/main/java/org/apache/tinkerpop/gremlin/tinkergraph/structure/TinkerGraph.java:712-714 | the counter goes up by one (wrapping from the largest long to the smallest) and the new value is the id, narrowed to int by INTEGER |
| IdManager.ConvertIdempotent | src/main/java/org/apache/tinkerpop/gremlin/tinkergraph/structure/TinkerGraph.java:717-728 | converting an already converted id changes nothing |
| IdManager.Allow | src/main/java/org/apache/tinkerpop/gremlin/tinkergraph/structure/TinkerGraph.java:731-814 | ANY allows every id; null and objects that are neither Numbers nor Strings are allowed only by ANY (AllowAgreesWithConvert ties the rest to Convert) |
| IdManager.AllowAgreesWithConvert | src/main/java/org/apache/tinkerpop/gremlin/tinkergraph/structure/TinkerGraph.java:731-733 | a non-null id is not allowed exactly when conversion refuses its class |
| IdManager.ConvertOfDecimalString | src/main/java/org/apache/tinkerpop/gremlin/tinkergraph/structure/TinkerGraph.java:724-725 | a decimal string converts to the long (or int) it spells |
| IdManager.NextIdsIncrease | src/main/java/org/apache/tinkerpop/gremlin/tinkergraph/structure/TinkerGraph.java:712-714 | n successive draws below the largest long yield strictly increasing ids above the start, ending at start + n |
| IdManager.ValidateHomogenousIds | src/main/java/org/apache/tinkerpop/gremlin/tinkergraph/structure/TinkerGraph.java:486-497 | passes exactly when every id is non-null and of the first id's class; otherwise the ids-must-be-either-id-or-element error |
| Storage.EdgeSerializer.constructor | src/main/java/org/apache/tinkerpop/gremlin/tinkergraph/storage/EdgeSerializer.java:35-38 | the serializer keeps the factory map it is given |
| Storage.EdgeSerializer.Rebuild | src/main/java/org/apache/tinkerpop/gremlin/tinkergraph/storage/EdgeSerializer.java:54-70 | a rebuilt edge has the decoded id, the schema of the factory for its label and conforming fields; a label without a factory is a null dereference |
| Storage.EdgeSerializer.RebuildOfEncode | src/main/java/org/apache/tinkerpop/gremlin/tinkergraph/storage/EdgeSerializer.java:41-70 | round trip: rebuilding the bytes written for an edge gives back its id, label, endpoint ids and fields |
| Storage.EdgeSerializer.Serialize | src/main/java/org/apache/tinkerpop/gremlin/tinkergraph/storage/EdgeSerializer.java:41-50 | succeeds exactly when both endpoints are stored vertices, and then the buffer built step by step is the encoding of the edge's record; otherwise the endpoint lookup throws NullPointerException |
| Storage.EdgeSerializer.Deserialize | src/main/java/org/apache/tinkerpop/gremlin/tinkergraph/storage/EdgeSerializer.java:54-70 | succeeds exactly when the rebuild does, yielding a fresh edge with that state and the dirty flag cleared; otherwise the rebuild's error |
| Storage.OndiskOverflow.constructor | src/main/java/org/apache/tinkerpop/gremlin/tinkergraph/storage/OndiskOverflow.java:39-60 | both stores start empty and the serializers are those given |
| Storage.OndiskOverflow.Serialized | src/main/java/org/apache/tinkerpop/gremlin/tinkergraph/storage/OndiskOverflow.java:66-68 | an edge serializes exactly when both its endpoints are stored vertices, and its bytes then decode to its record; otherwise NullPointerException |
| Storage.OndiskOverflow.Persist | src/main/java/org/apache/tinkerpop/gremlin/tinkergraph/storage/OndiskOverflow.java:62-74 | a vertex is put under its id in the vertex store only and an edge in the edge store only, replacing earlier bytes; a serializer failure writes nothing and throws: a RuntimeException for a vertex, the uncaught NullPointerException of a missing endpoint for an edge |
| Storage.OndiskOverflow.ReadVertex | src/main/java/org/apache/tinkerpop/gremlin/tinkergraph/storage/OndiskOverflow.java:76-78 | deserializes the bytes stored under the id; an id never stored throws |
| Storage.OndiskOverflow.ReadEdge | src/main/java/org/apache/tinkerpop/gremlin/tinkergraph/storage/OndiskOverflow.java:81-83 | a fresh edge with the id asked for, rebuilt from the bytes stored under it and not dirty; an id never stored throws |
| Storage.OndiskOverflow.RemoveVertex | src/main/java/org/apache/tinkerpop/gremlin/tinkergraph/storage/OndiskOverflow.java:90-92 | only that id leaves, and only the vertex store |
| Storage.OndiskOverflow.RemoveEdge | src/main/java/org/apache/tinkerpop/gremlin/tinkergraph/storage/OndiskOverflow.java:94-96 | only that id leaves, and only the edge store |
| Storage.Registered | src/main/java/org/apache/tinkerpop/gremlin/tinkergraph/storage/SoftReferenceManager.java:46-52 | the count goes up by one; the element is appended to the queue iff the new count exceeds the maximum, else the queue is unchanged |
| Storage.RegisterAllFrom | src/main/java/org/apache/tinkerpop/gremlin/tinkergraph/storage/SoftReferenceManager.java:46-52 | registering more elements keeps the queue equal to the held suffix of all registrations so far |
| Storage.RegisterAllFromFresh | src/main/java/org/apache/tinkerpop/gremlin/tinkergraph/storage/SoftReferenceManager.java:32-33 | from a fresh manager, n registrations leave the count at n and the queue holding the last max(0, n - maxWildSoftReferences) elements in order |
| Storage.Finalized | src/main/java/org/apache/tinkerpop/gremlin/tinkergraph/storage/SoftReferenceManager.java:61-66 | the count goes down by one; the queue loses exactly its head when non-empty, keeping the rest in order |
| Storage.SoftReferenceManager.constructor | src/main/java/org/apache/tinkerpop/gremlin/tinkergraph/storage/SoftReferenceManager.java:40-43 | count zero, empty queue, the maximum and store given |
| Storage.SoftReferenceManager.Register | src/main/java/org/apache/tinkerpop/gremlin/tinkergraph/storage/SoftReferenceManager.java:46-52 | the new state is the register step of the old one |
| Storage.SoftReferenceManager.NotifyObjectFinalized | src/main/java/org/apache/tinkerpop/gremlin/tinkergraph/storage/SoftReferenceManager.java:60-68 | the new state is the finalize step of the old one, and the finalized element is persisted exactly as persist does, whichever entry was released, an edge with an endpoint missing from the stored vertices failing with a null dereference |
| Graph.ByLabel | src/main/java/org/apache/tinkerpop/gremlin/tinkergraph/structure/TinkerGraph.java:203-204 | every factory's label is registered, each under its own label, the last factory of a label winning |
| Graph.TinkerGraph.constructor | src/main/java/org/apache/tinkerpop/gremlin/tinkergraph/structure/TinkerGraph.java:198-208 | empty maps and indexes, counter at -1; each factory map's keys are exactly the factories' labels, each key holds a factory of that label from the list, and where labels repeat the last factory wins |
| Graph.TinkerGraph.VertexById | src/main/java/org/apache/tinkerpop/gremlin/tinkergraph/structure/TinkerGraph.java:234-236 | a vertex exactly when one is stored under the id, and it has that id |
| Graph.TinkerGraph.OutVertex | src/main/java/org/apache/tinkerpop/gremlin/tinkergraph/structure/SpecializedTinkerEdge.java:133-135 | the vertex with the edge's out-vertex id, or nothing when none is stored |
| Graph.TinkerGraph.InVertex | src/main/java/org/apache/tinkerpop/gremlin/tinkergraph/structure/SpecializedTinkerEdge.java:138-140 | the vertex with the edge's in-vertex id, or nothing when none is stored |
| Graph.TinkerGraph.GetNextId | src/main/java/org/apache/tinkerpop/gremlin/tinkergraph/structure/TinkerGraph.java:712-714 | the counter and id are LONG's next-id step; the id is one above the old counter when it was below the largest long |
| Graph.TinkerGraph.GetElementRefsByLabel | src/main/java/org/apache/tinkerpop/gremlin/tinkergraph/structure/TinkerGraph.java:385-389 | an absent label gets an empty set; a present one leaves the index unchanged; the label's set is returned |
| Graph.TinkerGraph.AllocateIdFor | src/main/java/org/apache/tinkerpop/gremlin/tinkergraph/structure/TinkerGraph.java:246-252 | the id and new counter of the allocation function; a taken id throws with nothing changed |
| Graph.TinkerGraph.IndexId | src/main/java/org/apache/tinkerpop/gremlin/tinkergraph/structure/TinkerGraph.java:259 | the id joins exactly its label's set in the chosen index (created if absent); the other index, the counter and the element maps are unchanged |
| Graph.TinkerGraph.StoreNewVertex | src/main/java/org/apache/tinkerpop/gremlin/tinkergraph/structure/TinkerGraph.java:254-270 | a label without a factory throws; otherwise a fresh vertex of that schema is stored under the id and, with overflow, indexed under its label |
| Graph.TinkerGraph.AddVertex | src/main/java/org/apache/tinkerpop/gremlin/tinkergraph/structure/TinkerGraph.java:240-276 | conversion, duplicate-id and missing-factory refusals; the counter becomes max(old, id); the stored vertex; ids stay at or below the counter |
| Graph.TinkerGraph.StoreNewEdge | src/main/java/org/apache/tinkerpop/gremlin/tinkergraph/structure/SpecializedTinkerVertex.java:136-155 | id allocation as for vertices; a fresh edge stored under its id and indexed under its label |
| Graph.TinkerGraph.AddEdge | src/main/java/org/apache/tinkerpop/gremlin/tinkergraph/structure/SpecializedTinkerVertex.java:118-171 | the four refusals before any change, then missing factory, conversion and duplicate id; on success the stored edge and its id appended to both endpoints' lists; the out-vertex's lock must be free only for a call that gets as far as linking the edge |
| Graph.TinkerGraph.DetachFromEndpoints | src/main/java/org/apache/tinkerpop/gremlin/tinkergraph/structure/SpecializedTinkerEdge.java:105-110 | the edge id leaves its out-vertex's outgoing list and, when the in-vertex is stored, the in-vertex's incoming list (both lists of one vertex for a self-loop); the other list of each endpoint is unchanged; a missing endpoint throws, a missing out-vertex before anything changes; other vertices are untouched |
| Graph.TinkerGraph.Forget | src/main/java/org/apache/tinkerpop/gremlin/tinkergraph/structure/SpecializedTinkerEdge.java:113-117 | the edge leaves the edge map and, with overflow, its label's index set and the edge store |
| Graph.TinkerGraph.Unlink | src/main/java/org/apache/tinkerpop/gremlin/tinkergraph/structure/SpecializedTinkerEdge.java:105-117 | detaching and then forgetting the edge changes the graph exactly as EdgeRemoved describes |
| Graph.TinkerGraph.RemoveEdge | src/main/java/org/apache/tinkerpop/gremlin/tinkergraph/structure/SpecializedTinkerEdge.java:103-124 | the graph changes as the two-state predicate EdgeRemoved states: Pass iff both endpoints are stored (and, with overflow, the label has an id set), else a null dereference; the detach from both endpoints (self-loops included) with every other list and vertex framed; the edge map; with overflow the label index and the edge store; then the edge is removed, dirty and unlocked; a null dereference leaves the lock held and the edge's removed and dirty flags as they were |
| Graph.TinkerGraph.Clear | src/main/java/org/apache/tinkerpop/gremlin/tinkergraph/structure/TinkerGraph.java:312-324 | every element map, label index and overflow store is empty and the counter is -1 |
| Graph.AllocateId | src/main/java/org/apache/tinkerpop/gremlin/tinkergraph/structure/TinkerGraph.java:246-252 | an explicit id is refused iff taken and otherwise kept, and the counter becomes max(old counter, id); no id draws the next id (counter + 1, wrapping) and the counter becomes it; below the largest long the id is never taken |
| Graph.AddEdgeRefusal | src/main/java/org/apache/tinkerpop/gremlin/tinkergraph/structure/SpecializedTinkerVertex.java:120-131 | no refusal iff the target is non-null, the source not removed, and the label allowed out of the source and into the target; each refusal has its exception |
| Graph.NoEdgeTargetsASong | src/test/java/org/apache/tinkerpop/gremlin/tinkergraph/structure/specialized/gratefuldead/Song.java:39 | every edge whose target is a Song is refused |
| ElementRefs.EdgeEquals | src/main/java/org/apache/tinkerpop/gremlin/tinkergraph/structure/ElementRef.java:97-99 | an edge equals an object iff it is an edge with the same id |
| ElementRefs.ElementRef.FromElement | src/main/java/org/apache/tinkerpop/gremlin/tinkergraph/structure/ElementRef.java:39-44 | the handle takes the edge's id and label and softly references the edge |
| ElementRefs.ElementRef.constructor | src/main/java/org/apache/tinkerpop/gremlin/tinkergraph/structure/ElementRef.java:46-50 | the handle has the id and label given and no edge yet |
| ElementRefs.ElementRef.Clear | src/main/java/org/apache/tinkerpop/gremlin/tinkergraph/structure/ElementRef.java:37 | the collector clears the soft reference |
| ElementRefs.ElementRef.Resolve | src/main/java/org/apache/tinkerpop/gremlin/tinkergraph/structure/ElementRef.java:52-65 | the read half of get: the uncleared reference, or the edge rebuilt from the store under the handle's id, a missing id being a null dereference; nothing changes |
| ElementRefs.ElementRef.Get | src/main/java/org/apache/tinkerpop/gremlin/tinkergraph/structure/ElementRef.java:52-65 | an uncleared reference is returned with no read; a cleared one reads the handle's own id and installs the fresh edge; a failed read throws and leaves the reference as it was |
| ElementRefs.ElementRef.Remove | src/main/java/org/apache/tinkerpop/gremlin/tinkergraph/structure/ElementRef.java:87-89 | names the edge get resolves (the soft reference, or a fresh edge rebuilt from the store under the handle's id); a failed read changes nothing; otherwise that edge becomes the soft reference and the graph changes exactly as RemoveEdge changes it, with the same outcome and flags; a referenced edge keeps its fields, and on failure its removed and dirty flags; an edge read from the store that fails to be removed is neither removed nor dirty |
| ElementRefs.ElementRef.RemoveResolved | src/main/java/org/apache/tinkerpop/gremlin/tinkergraph/structure/ElementRef.java:87-89 | the resolved edge leaves the graph as EdgeRemoved describes and is the soft reference |
| ElementRefs.ElementRef.HashCode | src/main/java/org/apache/tinkerpop/gremlin/tinkergraph/structure/ElementRef.java:92-94 | the resolved edge's hash, which is Long.hashCode of the handle's id; the soft reference ends as get leaves it: kept when set, installed with the rebuilt edge after a successful read, unchanged on failure; a cleared handle succeeds iff its id is stored and rebuilds |
| ElementRefs.ElementRef.Equals | src/main/java/org/apache/tinkerpop/gremlin/tinkergraph/structure/ElementRef.java:97-99 | the resolved edge's equality: true iff the object is an edge with the handle's id; the soft reference ends as get leaves it: kept when set, installed with the rebuilt edge after a successful read, unchanged on failure; a cleared handle succeeds iff its id is stored and rebuilds |

## Left out

- The overflow store's temp files, the MVStore open and close (`close()`), and its console output. The two maps are Dafny maps.
- The vertex serializer and `VertexRef`. `VertexSerializer` is not part of this model, so vertex bytes come from two functions given to the store.
- `Serializer.packProperties`/`unpackProperties` are not part of this model. The property map layout here is the model's own: a MessagePack map from str keys to str or int values.
- msgpack-java details outside the formats the record uses:
  - the bin family accepted as str;
  - replacement of malformed UTF-8 with U+FFFD, which here is a decoding failure.
- Garbage collection and `finalize` timing. Clearing a soft reference (`ElementRef.Clear`) and finalization (`NotifyObjectFinalized`) are explicit steps.
  - The element constructors that call `register` belong to `TinkerElement`, which is not part of this model.
- Concurrency: the semaphore's blocking and the concurrent maps and deque. The model is single-threaded.
- Generic (non-specialized) elements. The model graph always has factories.
  - A label without a factory is refused, which is the specialized branch.
- UUID ids, which are random, and Double/Float ids.
- Vertex removal. `TinkerVertex.remove` is not part of this model, so a vertex's `removed` flag is only ever read.
- Indexes: `TinkerHelper.autoUpdateIndex` and `removeElementIndex`.
- `properties = null` in `SpecializedTinkerEdge.remove`. It clears the generic property map of `TinkerEdge`, which specialized edges do not use, so the modelled fields are unchanged.
- The overflow branches of `edgeById`, `edgesById`, `vertices` and `edges`. They call helpers the class does not define.
- `loadGraph`/`saveGraph`/`io`, `compute`, traversal strategies and the feature classes.
- The `ElementRef` for vertices. `ElementRef` is modelled for edges; a vertex handle would read through the vertex serializer, which is not part of this model.
- `Elements.SpecializedEdge.ToString` is modelled but carries no contract beyond its definition.
- `JavaLang.LongHashCode` is modelled but carries no contract beyond its definition.
- `ElementRefs.ElementRef.constructor`: as written the three-argument constructor leaves the soft reference null, and the first `get()` throws NullPointerException. The model starts it cleared instead.
- `ElementRefs.EdgeEquals`: equality is TinkerPop's id-based element equality; `ElementHelper` is not part of this model.
- `IdManager.Convert`: a String id parses with the ASCII digits `0`-`9` only. `Long.parseLong` and `Integer.parseInt` read digits with `Character.digit`, which also accepts every other Unicode decimal digit (Arabic-Indic, fullwidth and so on). The Unicode digit table is not part of this model, so such strings are refused here where Java converts them.
- `JavaLang.JString`: strings of 2^29 chars or more are outside the model, though Java allows up to 2^31 - 1. The bound keeps every UTF-8 encoding shorter than 2^31 bytes, so a str 32 length always reads back as a non-negative Java `int`.
- `MsgPack.UnpackStringOfPackString`: a Dafny `char` is a Unicode scalar value, so strings with unpaired surrogates cannot be written down. msgpack-java encodes an unpaired surrogate as `?`, and for such a string the round trip does not hold; it is proved for strings of scalar values only.
- `MsgPack.DecodeUtf8OfUtf8`: the same restriction; it is proved for strings of Unicode scalar values, which have no surrogates.
- `ElementRefs.ElementRef.Remove`: the soft reference to an edge read from the store is set after the graph update rather than before it. The removal never reads the handle, so the final state is the same.
- `Graph.TinkerGraph.AddEdge`: `ElementHelper.legalPropertyKeyValueArray` (SpecializedTinkerVertex.java:132) is not modelled; properties arrive as a list of key/value pairs.
- `Graph.TinkerGraph.AddVertex`: `ElementHelper.legalPropertyKeyValueArray` is not modelled; properties arrive as a list of key/value pairs.
- `Elements.SpecializedVertex.SetProperty`: three parts of `property(cardinality, key, value, keyValues...)` are not modelled.
  - The null-value refusal of `ElementHelper.validateProperty` (SpecializedTinkerVertex.java:97): a `Value` is never null, so only the key check is modelled.
  - The meta-property array check `ElementHelper.legalPropertyKeyValueArray(keyValues)` (SpecializedTinkerVertex.java:96): the model's method takes no `keyValues`.
  - The `cardinality` argument, which Song's `updateSpecificProperty` also ignores.
- `Elements.SpecializedEdge.SetProperty`: the null-value refusal of `ElementHelper.validateProperty` (SpecializedTinkerEdge.java:76) is not modelled, because a `Value` is never null; only the key check is modelled.
- `Adjacency.EdgesAsWritten`, `Adjacency.EdgesIntended`, `Adjacency.Flatten` and `Elements.SpecializedVertex.Edges`: the contracts state membership only.
  - The bodies keep every list whole, so an id listed twice is yielded twice. For example, with no labels a self-loop's id comes once from each list.
  - The yield order follows `THashMap` iteration, which is abstracted to "some label order".

## Findings

| source | as written | input that shows it | evidently intended | confidence | as-written member | corrected member |
|---|---|---|---|---|---|---|
| src/main/java/org/apache/tinkerpop/gremlin/tinkergraph/structure/SpecializedTinkerVertex.java:196-198 | with no labels, both the outgoing and the incoming lists are yielded whatever the direction | `edges(IN)` on a vertex whose only edge is an outgoing `sungBy` yields that edge | only the lists of the requested side(s) | high (not executed) | Adjacency.AsWrittenIgnoresDirection | Adjacency.EdgesIntended |
| src/main/java/org/apache/tinkerpop/gremlin/tinkergraph/structure/SpecializedTinkerVertex.java:202-206 | `else if` makes BOTH read only the outgoing list of each label | `edges(BOTH, "sungBy")` on a vertex with one incoming `sungBy` edge yields nothing | BOTH reads both lists of each label | high (not executed) | Adjacency.AsWrittenBothSkipsIncoming | Adjacency.EdgesIntended |
| src/main/java/org/apache/tinkerpop/gremlin/tinkergraph/structure/SpecializedTinkerVertex.java:203 | the list of a label is dereferenced without a presence check | `edges(OUT, "followedBy")` on a vertex with no `followedBy` edge throws NullPointerException | a label with no edges yields nothing | high (not executed) | Adjacency.AsWrittenAbsentLabelFails | Adjacency.EdgesIntended |
