/**
  The byte layout of a serialized edge: its id, its label, its properties as
  a map, the id of its out-vertex and the id of its in-vertex, one MessagePack
  value after the other. The property map holds one entry per present
  property, key as a str and value as a str or an int.
*/
module EdgeCodec {
  import opened Wrappers
  import opened JavaLang
  import opened MsgPack
  import opened Schema

  /** A property list whose length fits a MessagePack map header read back into a Java int. */
  type PropertyList = ps: seq<Property> | |ps| < 0x8000_0000

  /** The five fields of the record, in the order they are written. */
  datatype EdgeRecord = EdgeRecord(
    id: Long,
    edgeLabel: JString,
    properties: PropertyList,
    outVertexId: Long,
    inVertexId: Long)

  /** A String value as a str, an Integer value as an int. */
  function PackValue(v: Value): (r: Bytes)
    ensures |r| > 0
    ensures v.StrValue? <==> IsStrFormat(r[0])
    ensures v.IntValue? <==> IsIntFormat(r[0])
  {
    match v
    case StrValue(s) => PackStringFormat(s); PackString(s)
    case IntValue(i) => PackLongFormat(i); PackLong(i)
  }

  /** Reads a property value; the format byte says which type it has. */
  function UnpackValue(s: Bytes): (r: Result<Decoded<Value>>)
    ensures r.Ok? ==> |r.value.rest| < |s|
  {
    if |s| == 0 then Err(MalformedRecord)
    else if IsStrFormat(s[0]) then
      var str :- UnpackString(s);
      Ok(Decoded(StrValue(str.value), str.rest))
    else if IsIntFormat(s[0]) then
      var n :- UnpackLong(s);
      if INT_MIN <= n.value <= INT_MAX then Ok(Decoded(IntValue(n.value), n.rest)) else Err(MalformedRecord)
    else Err(MalformedRecord)
  }

  lemma UnpackValueOfPackValue(v: Value, rest: Bytes)
    ensures UnpackValue(PackValue(v) + rest) == Ok(Decoded(v, rest))
  {
    match v
    case StrValue(s) => UnpackStringOfPackString(s, rest);
    case IntValue(i) => UnpackLongOfPackLong(i, rest);
  }

  /** The map entries: each key followed by its value. */
  function PackEntries(ps: seq<Property>): (r: Bytes)
    ensures |r| >= 2 * |ps|
  {
    if |ps| == 0 then [] else PackString(ps[0].key) + PackValue(ps[0].value) + PackEntries(ps[1..])
  }

  /** Reads n map entries. */
  function UnpackEntries(s: Bytes, n: nat): (r: Result<Decoded<seq<Property>>>)
    ensures r.Ok? ==> |r.value.value| == n
    decreases n
  {
    if n == 0 then Ok(Decoded([], s))
    else
      match UnpackString(s)
      case Err(e) => Err(e)
      case Ok(key) =>
        match UnpackValue(key.rest)
        case Err(e) => Err(e)
        case Ok(value) =>
          match UnpackEntries(value.rest, n - 1)
          case Err(e) => Err(e)
          case Ok(tail) => Ok(Decoded([Property(key.value, value.value)] + tail.value, tail.rest))
  }

  /** One entry read off the front, then the rest as the shorter list would be read. */
  lemma UnpackEntriesCons(p: Property, tail: Bytes, n: nat)
    ensures UnpackEntries(PackString(p.key) + (PackValue(p.value) + tail), n + 1) ==
      match UnpackEntries(tail, n)
      case Err(e) => Err(e)
      case Ok(d) => Ok(Decoded([p] + d.value, d.rest))
  {
    UnpackStringOfPackString(p.key, PackValue(p.value) + tail);
    UnpackValueOfPackValue(p.value, tail);
  }

  lemma PackEntriesCons(ps: seq<Property>, rest: Bytes)
    requires |ps| > 0
    ensures PackEntries(ps) + rest == PackString(ps[0].key) + (PackValue(ps[0].value) + (PackEntries(ps[1..]) + rest))
  {
    var a, b, c := PackString(ps[0].key), PackValue(ps[0].value), PackEntries(ps[1..]);
    assert PackEntries(ps) == a + b + c;
    SeqAssoc4(a, b, c, rest);
  }

  lemma SeqAssoc4(a: Bytes, b: Bytes, c: Bytes, d: Bytes)
    ensures a + b + c + d == a + (b + (c + d))
  {
  }

  lemma {:induction false} UnpackEntriesOfPackEntries(ps: seq<Property>, rest: Bytes)
    ensures UnpackEntries(PackEntries(ps) + rest, |ps|) == Ok(Decoded(ps, rest))
  {
    if |ps| > 0 {
      var tail := PackEntries(ps[1..]) + rest;
      PackEntriesCons(ps, rest);
      UnpackEntriesCons(ps[0], tail, |ps| - 1);
      UnpackEntriesOfPackEntries(ps[1..], rest);
      assert [ps[0]] + ps[1..] == ps;
    } else {
      assert PackEntries(ps) + rest == rest;
    }
  }

  /** The property map: a map header with the entry count, then the entries. */
  function PackProperties(ps: PropertyList): (r: Bytes)
    ensures |r| > 2 * |ps|
  {
    MapHeader(|ps|) + PackEntries(ps)
  }

  function UnpackProperties(s: Bytes): (r: Result<Decoded<PropertyList>>)
    ensures r.Ok? ==> |r.value.rest| < |s|
  {
    var n :- UnpackMapHeader(s);
    var entries :- UnpackEntries(n.rest, n.value);
    if |entries.rest| >= |s| then Err(MalformedRecord)
    else Ok(Decoded(entries.value, entries.rest))
  }

  lemma UnpackPropertiesOfPackProperties(ps: PropertyList, rest: Bytes)
    ensures UnpackProperties(PackProperties(ps) + rest) == Ok(Decoded(ps, rest))
  {
    assert PackProperties(ps) + rest == MapHeader(|ps|) + (PackEntries(ps) + rest);
    UnpackMapHeaderOfMapHeader(|ps|, PackEntries(ps) + rest);
    UnpackEntriesOfPackEntries(ps, rest);
  }

  /** EdgeSerializer.serialize: the five fields packed one after the other. */
  function Encode(r: EdgeRecord): (bytes: Bytes)
    ensures |bytes| >= 5
  {
    PackLong(r.id) + PackString(r.edgeLabel) + PackProperties(r.properties)
      + PackLong(r.outVertexId) + PackLong(r.inVertexId)
  }

  /**
    EdgeSerializer.deserialize up to the factory call: the five fields
    unpacked in the order they were packed. Bytes after the last field are
    not looked at.
  */
  function Decode(s: Bytes): (r: Result<EdgeRecord>)
    ensures r.Ok? ==> |s| >= 5
  {
    var id :- UnpackLong(s);
    var edgeLabel :- UnpackString(id.rest);
    var properties :- UnpackProperties(edgeLabel.rest);
    var outVertexId :- UnpackLong(properties.rest);
    var inVertexId :- UnpackLong(outVertexId.rest);
    Ok(EdgeRecord(id.value, edgeLabel.value, properties.value, outVertexId.value, inVertexId.value))
  }

  lemma Regroup(a: Bytes, b: Bytes, c: Bytes, d: Bytes, e: Bytes, rest: Bytes)
    ensures a + b + c + d + e + rest == a + (b + (c + (d + (e + rest))))
  {
  }

  /** Decoding what was encoded gives the same record back, whatever follows it. */
  lemma DecodeOfEncode(r: EdgeRecord, rest: Bytes)
    ensures Decode(Encode(r) + rest) == Ok(r)
  {
    var a := PackLong(r.id);
    var b := PackString(r.edgeLabel);
    var c := PackProperties(r.properties);
    var d := PackLong(r.outVertexId);
    var e := PackLong(r.inVertexId);
    var s4 := e + rest;
    var s3 := d + s4;
    var s2 := c + s3;
    var s1 := b + s2;
    Regroup(a, b, c, d, e, rest);
    assert Encode(r) + rest == a + s1;
    UnpackLongOfPackLong(r.id, s1);
    UnpackStringOfPackString(r.edgeLabel, s2);
    UnpackPropertiesOfPackProperties(r.properties, s3);
    UnpackLongOfPackLong(r.outVertexId, s4);
    UnpackLongOfPackLong(r.inVertexId, rest);
  }

  /** The record layout decides the bytes: two records with the same encoding are the same record. */
  lemma EncodeInjective(r1: EdgeRecord, r2: EdgeRecord)
    requires Encode(r1) == Encode(r2)
    ensures r1 == r2
  {
    DecodeOfEncode(r1, []);
    DecodeOfEncode(r2, []);
    assert Encode(r1) + [] == Encode(r1);
    assert Encode(r2) + [] == Encode(r2);
  }
}
