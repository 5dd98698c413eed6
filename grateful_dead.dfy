/**
  The concrete specialized schemas of the Grateful Dead test graph: the
  vertex `song` with three properties and the edge `sungBy` with none. The
  factory of each is its schema: a factory builds an element carrying that
  schema's label and keys.
*/
module GratefulDead {
  import opened Wrappers
  import opened JavaLang
  import opened Schema

  const SONG_LABEL: JString := "song"
  const NAME: JString := "name"
  const SONG_TYPE: JString := "songType"
  const PERFORMANCES: JString := "performances"

  const FOLLOWED_BY_LABEL: JString := "followedBy"
  const SUNG_BY_LABEL: JString := "sungBy"
  const WRITTEN_BY_LABEL: JString := "writtenBy"

  /** Song: name and songType are Strings, performances an Integer; songs link out and nothing links in. */
  const SONG: VertexSchema := VertexSchema(
    SONG_LABEL,
    PropertySchema([NAME, SONG_TYPE, PERFORMANCES],
      map[NAME := StringType, SONG_TYPE := StringType, PERFORMANCES := IntegerType]),
    {FOLLOWED_BY_LABEL, SUNG_BY_LABEL, WRITTEN_BY_LABEL},
    {})

  /** SungBy: no property keys at all. */
  const SUNG_BY: EdgeSchema := EdgeSchema(SUNG_BY_LABEL, PropertySchema([], map[]))

  /** The factories the test graph is opened with. */
  const VERTEX_FACTORIES: seq<VertexSchema> := [SONG]
  const EDGE_FACTORIES: seq<EdgeSchema> := [SUNG_BY]

  /** The Song schema is well formed and its key set is exactly the three field names. */
  lemma SongSchemaWellFormed()
    ensures WellFormed(SONG.properties)
    ensures SONG.properties.keyTypes.Keys == {NAME, SONG_TYPE, PERFORMANCES}
  {
  }

  lemma SungBySchemaWellFormed()
    ensures WellFormed(SUNG_BY.properties)
    ensures SUNG_BY.properties.keyTypes.Keys == {}
  {
  }

  /**
    Song.updateSpecificProperty: a schema key takes a value of its type into
    its own field and no other; any other key is not supported, and a String
    for performances or an Integer for name or songType fails the cast.
  */
  lemma SongUpdate(fields: Fields, key: JString, v: Value)
    requires Conforms(SONG.properties, fields)
    ensures key in {NAME, SONG_TYPE} && v.StrValue? ==> UpdateSpecificProperty(SONG.properties, fields, key, v) == Ok(fields[key := v])
    ensures key == PERFORMANCES && v.IntValue? ==> UpdateSpecificProperty(SONG.properties, fields, key, v) == Ok(fields[key := v])
    ensures key in {NAME, SONG_TYPE} && v.IntValue? ==> UpdateSpecificProperty(SONG.properties, fields, key, v) == Err(ClassCast)
    ensures key == PERFORMANCES && v.StrValue? ==> UpdateSpecificProperty(SONG.properties, fields, key, v) == Err(ClassCast)
    ensures key !in {NAME, SONG_TYPE, PERFORMANCES} ==> UpdateSpecificProperty(SONG.properties, fields, key, v) == Err(PropertyNotSupported)
  {
  }

  /** Song.removeSpecificProperty: a schema key nulls its own field; any other key is not supported. */
  lemma SongRemove(fields: Fields, key: JString)
    requires Conforms(SONG.properties, fields)
    ensures key in {NAME, SONG_TYPE, PERFORMANCES} ==> RemoveSpecificProperty(SONG.properties, fields, key) == Ok(fields - {key})
    ensures key !in {NAME, SONG_TYPE, PERFORMANCES} ==> RemoveSpecificProperty(SONG.properties, fields, key) == Err(PropertyNotSupported)
  {
  }

  /** Song.specificProperties: a property iff the key names one of the three fields and that field is non-null. */
  lemma SongSpecificProperty(fields: Fields, key: JString)
    requires Conforms(SONG.properties, fields)
    ensures SpecificProperty(SONG.properties, fields, key).Some? <==> key in {NAME, SONG_TYPE, PERFORMANCES} && key in fields
    ensures SpecificProperty(SONG.properties, fields, key).Some? ==> SpecificProperty(SONG.properties, fields, key).value == fields[key]
  {
  }

  /** SungBy has no property: it never yields one, and every update and removal throws. */
  lemma SungByHasNoProperties(fields: Fields, key: JString, v: Value)
    requires Conforms(SUNG_BY.properties, fields)
    ensures fields == map[]
    ensures SpecificProperty(SUNG_BY.properties, fields, key) == None
    ensures UpdateSpecificProperty(SUNG_BY.properties, fields, key, v) == Err(PropertyNotSupported)
    ensures RemoveSpecificProperty(SUNG_BY.properties, fields, key) == Err(PropertyNotSupported)
  {
    assert forall k :: k !in fields;
  }
}
