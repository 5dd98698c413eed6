/**
  TinkerGraph's id managers (the DefaultIdManager enum): converting a
  user-supplied id to the manager's id type, deciding which ids a manager
  accepts, and drawing the next id from the graph's id counter; and the check
  that the ids of one lookup are homogeneous.
*/
module IdManager {
  import opened Wrappers
  import opened JavaLang

  /** The Java objects a caller may pass as an id. */
  datatype JavaObject =
    | Null
    | LongObj(l: Long)
    | IntegerObj(i: Int)
    | ShortObj(sh: Short)
    | ByteObj(b: SignedByte)
    | BigIntegerObj(big: int)
    | StringObj(str: string)
    | OtherObj(className: string) // an object of a class that is neither a Number nor a String

  /** The runtime class of a non-null object. */
  datatype JavaClass = LongClass | IntegerClass | ShortClass | ByteClass | BigIntegerClass | StringClass | OtherClass(name: string)

  function ClassOf(o: JavaObject): JavaClass
    requires o != Null
  {
    match o
    case LongObj(_) => LongClass
    case IntegerObj(_) => IntegerClass
    case ShortObj(_) => ShortClass
    case ByteObj(_) => ByteClass
    case BigIntegerObj(_) => BigIntegerClass
    case StringObj(_) => StringClass
    case OtherObj(name) => OtherClass(name)
  }

  predicate IsNumber(o: JavaObject) {
    o.LongObj? || o.IntegerObj? || o.ShortObj? || o.ByteObj? || o.BigIntegerObj?
  }

  /** Number.longValue: exact for the narrower types, the low 64 bits of a BigInteger. */
  function LongValue(o: JavaObject): (r: Long)
    requires IsNumber(o)
    ensures LONG_MIN <= NumberValue(o) <= LONG_MAX ==> r == NumberValue(o)
  {
    match o
    case LongObj(x) => x
    case IntegerObj(x) => x
    case ShortObj(x) => x
    case ByteObj(x) => x
    case BigIntegerObj(x) => WrapLong(x)
  }

  /** Number.intValue: exact for the narrower types, the low 32 bits of a Long or a BigInteger. */
  function IntValue(o: JavaObject): (r: Int)
    requires IsNumber(o)
    ensures INT_MIN <= NumberValue(o) <= INT_MAX ==> r == NumberValue(o)
  {
    match o
    case LongObj(x) => WrapInt(x)
    case IntegerObj(x) => x
    case ShortObj(x) => x
    case ByteObj(x) => x
    case BigIntegerObj(x) => WrapInt(x)
  }

  /** The mathematical value of a Number. */
  function NumberValue(o: JavaObject): int
    requires IsNumber(o)
  {
    match o
    case LongObj(x) => x
    case IntegerObj(x) => x
    case ShortObj(x) => x
    case ByteObj(x) => x
    case BigIntegerObj(x) => x
  }

  /** The managers TinkerGraph offers; UUID, which draws random ids, is not part of this model. */
  datatype DefaultIdManager = LONG | INTEGER | ANY

  /**
    IdManager.convert: null stays null; LONG turns every Number into a Long
    and parses a String as a long, INTEGER does the same with Integer and
    int; any other object cannot be converted. ANY leaves every id as it is.
  */
  function Convert(m: DefaultIdManager, id: JavaObject): (r: Result<JavaObject>)
    ensures id == Null ==> r == Ok(Null)
    ensures m == LONG && r.Ok? ==> r.value.Null? || r.value.LongObj?
    ensures m == INTEGER && r.Ok? ==> r.value.Null? || r.value.IntegerObj?
    ensures m == LONG && IsNumber(id) ==> r == Ok(LongObj(LongValue(id)))
    ensures m == INTEGER && IsNumber(id) ==> r == Ok(IntegerObj(IntValue(id)))
    ensures r.Err? ==> r.error in {IdNotConvertible, NumberFormat}
  {
    match m
    case LONG =>
      if id.Null? then Ok(Null)
      else if id.LongObj? then Ok(id)
      else if IsNumber(id) then Ok(LongObj(LongValue(id)))
      else if id.StringObj? then
        match ParseLong(id.str)
        case Ok(x) => Ok(LongObj(x))
        case Err(e) => Err(e)
      else Err(IdNotConvertible)
    case INTEGER =>
      if id.Null? then Ok(Null)
      else if id.IntegerObj? then Ok(id)
      else if IsNumber(id) then Ok(IntegerObj(IntValue(id)))
      else if id.StringObj? then
        match ParseInt(id.str)
        case Ok(x) => Ok(IntegerObj(x))
        case Err(e) => Err(e)
      else Err(IdNotConvertible)
    case ANY => Ok(id)
  }

  /** IdManager.allow: LONG and INTEGER take any Number or String, ANY takes everything. */
  function Allow(m: DefaultIdManager, id: JavaObject): (r: bool)
    ensures m == ANY ==> r
    ensures id.Null? || id.OtherObj? ==> (r <==> m == ANY)
  {
    match m
    case LONG => IsNumber(id) || id.StringObj?
    case INTEGER => IsNumber(id) || id.StringObj?
    case ANY => true
  }

  /**
    IdManager.getNextId: increments the graph's id counter (a Java long, so
    it wraps) and hands out the new value, narrowed to an int by INTEGER.
    Gives the new counter and the id.
  */
  function NextId(m: DefaultIdManager, currentId: Long): (r: (Long, JavaObject))
    ensures currentId < LONG_MAX ==> r.0 == currentId + 1
    ensures currentId == LONG_MAX ==> r.0 == LONG_MIN
    ensures m != INTEGER ==> r.1 == LongObj(r.0)
    ensures m == INTEGER ==> r.1 == IntegerObj(WrapInt(r.0))
  {
    var next := WrapLong(currentId + 1);
    (next, if m == INTEGER then IntegerObj(WrapInt(next)) else LongObj(next))
  }

  /** Converting an id that is already converted changes nothing. */
  lemma ConvertIdempotent(m: DefaultIdManager, id: JavaObject)
    requires Convert(m, id).Ok?
    ensures Convert(m, Convert(m, id).value) == Convert(m, id)
  {
  }

  /**
    allow and convert agree: a non-null id that LONG or INTEGER does not allow
    is exactly one whose conversion is refused for its class (a String may
    still fail to parse).
  */
  lemma AllowAgreesWithConvert(m: DefaultIdManager, id: JavaObject)
    requires m != ANY && id != Null
    ensures !Allow(m, id) <==> Convert(m, id) == Err(IdNotConvertible)
  {
  }

  /** A long spelled out in decimal converts back to that long; an int likewise for INTEGER. */
  lemma ConvertOfDecimalString(x: Long)
    ensures Convert(LONG, StringObj(LongToString(x))) == Ok(LongObj(x))
    ensures INT_MIN <= x <= INT_MAX ==> Convert(INTEGER, StringObj(LongToString(x))) == Ok(IntegerObj(x))
  {
    ParseLongOfLongToString(x);
    if INT_MIN <= x <= INT_MAX {
      ParseIntOfToString(x);
    }
  }

  /**
    Ids drawn one after the other from the same counter strictly increase as
    long as the counter has not reached the largest long.
  */
  lemma {:induction false} NextIdsIncrease(m: DefaultIdManager, c: Long, n: nat)
    requires m != INTEGER && c + n <= LONG_MAX
    ensures Draw(m, c, n).1 == c + n
    ensures forall i, j :: 0 <= i < j < |Draw(m, c, n).0| ==> Draw(m, c, n).0[i] < Draw(m, c, n).0[j]
    ensures forall i :: 0 <= i < |Draw(m, c, n).0| ==> c < Draw(m, c, n).0[i] <= c + n
  {
    if n > 0 {
      NextIdsIncrease(m, c, n - 1);
    }
  }

  /** The ids handed out by n calls of getNextId from counter c, and the final counter. */
  function Draw(m: DefaultIdManager, c: Long, n: nat): (r: (seq<Long>, Long))
    requires m != INTEGER
    ensures |r.0| == n
  {
    if n == 0 then ([], c)
    else
      var (ids, counter) := Draw(m, c, n - 1);
      var (next, id) := NextId(m, counter);
      (ids + [next], next)
  }

  /**
    validateHomogenousIds: every id of a lookup is non-null and of the class
    of the first one, or the lookup is refused.
  */
  method ValidateHomogenousIds(ids: seq<JavaObject>) returns (r: Outcome)
    requires |ids| > 0
    ensures r == Pass <==> ids[0] != Null && forall i :: 0 <= i < |ids| ==> ids[i] != Null && ClassOf(ids[i]) == ClassOf(ids[0])
    ensures r.Fail? ==> r.error == IdArgsMustBeEitherIdOrElement
  {
    var id := ids[0];
    if id == Null {
      return Fail(IdArgsMustBeEitherIdOrElement);
    }
    var firstClass := ClassOf(id);
    var k := 1;
    while k < |ids|
      invariant 1 <= k <= |ids|
      invariant forall i :: 0 <= i < k ==> ids[i] != Null && ClassOf(ids[i]) == firstClass
    {
      id := ids[k];
      if id == Null || ClassOf(id) != firstClass {
        return Fail(IdArgsMustBeEitherIdOrElement);
      }
      k := k + 1;
    }
    return Pass;
  }
}
