/**
  The Java integer types the graph store uses, with their wrap-around, and the
  decimal conversions of java.lang.Long and java.lang.Integer (toString,
  parseLong, parseInt, hashCode).
*/
module JavaLang {
  import opened Wrappers

  const LONG_MIN: int := -0x8000_0000_0000_0000
  const LONG_MAX: int := 0x7FFF_FFFF_FFFF_FFFF
  const INT_MIN: int := -0x8000_0000
  const INT_MAX: int := 0x7FFF_FFFF
  const TWO_64: int := 0x1_0000_0000_0000_0000
  const TWO_32: int := 0x1_0000_0000

  /** Java `long`. */
  type Long = x: int | LONG_MIN <= x <= LONG_MAX
  /** Java `int`. */
  type Int = x: int | INT_MIN <= x <= INT_MAX
  /** Java `short`. */
  type Short = x: int | -0x8000 <= x <= 0x7FFF
  /** Java `byte` (signed). */
  type SignedByte = x: int | -0x80 <= x <= 0x7F

  /**
    The strings the store handles. Java strings are bounded; the bound chosen
    here keeps every UTF-8 encoding below 2^31 bytes, the largest length a
    MessagePack str 32 header can carry back into a Java `int`.
  */
  const JSTRING_BOUND: int := 0x2000_0000
  type JString = s: string | |s| < JSTRING_BOUND

  /** The low 64 bits of x read as a two's complement `long`: a Java cast or overflow to long. */
  function WrapLong(x: int): (r: Long)
    ensures LONG_MIN <= x <= LONG_MAX ==> r == x
    ensures (r - x) % TWO_64 == 0
  {
    var m := x % TWO_64;
    if m > LONG_MAX then m - TWO_64 else m
  }

  /** The low 32 bits of x read as a two's complement `int`: a Java cast or overflow to int. */
  function WrapInt(x: int): (r: Int)
    ensures INT_MIN <= x <= INT_MAX ==> r == x
    ensures (r - x) % TWO_32 == 0
  {
    var m := x % TWO_32;
    if m > INT_MAX then m - TWO_32 else m
  }

  // ----- decimal digits -----

  predicate IsDigit(c: char) {
    '0' <= c <= '9'
  }

  predicate AllDigits(s: string) {
    forall i :: 0 <= i < |s| ==> IsDigit(s[i])
  }

  function DigitChar(d: nat): (c: char)
    requires d < 10
    ensures IsDigit(c) && c as int - '0' as int == d
  {
    ('0' as int + d) as char
  }

  /** The value of a string of decimal digits, most significant first. */
  function DecimalValue(s: string): nat
    requires AllDigits(s)
  {
    if |s| == 0 then 0 else DecimalValue(s[..|s| - 1]) * 10 + (s[|s| - 1] as int - '0' as int)
  }

  /** The shortest decimal spelling of n ("0" for zero, no leading zeros). */
  function NatToDecimal(n: nat): (s: string)
    ensures |s| > 0 && AllDigits(s)
    ensures s[0] != '0' || n == 0
  {
    if n < 10 then [DigitChar(n)] else NatToDecimal(n / 10) + [DigitChar(n % 10)]
  }

  /** Reading back the decimal spelling of n gives n. */
  lemma {:induction false} DecimalValueOfNatToDecimal(n: nat)
    ensures DecimalValue(NatToDecimal(n)) == n
  {
    if n >= 10 {
      var s := NatToDecimal(n);
      var prefix := NatToDecimal(n / 10);
      assert s == prefix + [DigitChar(n % 10)];
      assert s[..|s| - 1] == prefix;
      DecimalValueOfNatToDecimal(n / 10);
    }
  }

  /** Long.toString(long): an optional minus sign, then the decimal digits of the magnitude. */
  function LongToString(x: Long): (s: string)
    ensures |s| > 0
    ensures forall i :: 0 <= i < |s| ==> IsDigit(s[i]) || (i == 0 && s[i] == '-')
  {
    if x < 0 then "-" + NatToDecimal(-(x as int)) else NatToDecimal(x)
  }

  /**
    The integer a decimal string spells, with an optional leading '-' or '+',
    and at least one digit; None when the string is not of that shape. Only
    ASCII digits are accepted.
  */
  function ParseDecimal(s: string): (r: Option<int>)
    ensures r.Some? ==> |s| > 0
  {
    if |s| == 0 then None
    else
      var digits := if s[0] == '-' || s[0] == '+' then s[1..] else s;
      if |digits| == 0 || !AllDigits(digits) then None
      else if s[0] == '-' then Some(-(DecimalValue(digits) as int))
      else Some(DecimalValue(digits))
  }

  /** Long.parseLong(String): NumberFormatException for a malformed or out-of-range string. */
  function ParseLong(s: string): Result<Long>
  {
    match ParseDecimal(s)
    case None => Err(NumberFormat)
    case Some(v) => if LONG_MIN <= v <= LONG_MAX then Ok(v) else Err(NumberFormat)
  }

  /** Integer.parseInt(String): NumberFormatException for a malformed or out-of-range string. */
  function ParseInt(s: string): Result<Int>
  {
    match ParseDecimal(s)
    case None => Err(NumberFormat)
    case Some(v) => if INT_MIN <= v <= INT_MAX then Ok(v) else Err(NumberFormat)
  }

  /** Parsing what Long.toString prints gives back the same long. */
  lemma ParseLongOfLongToString(x: Long)
    ensures ParseLong(LongToString(x)) == Ok(x)
  {
    var s := LongToString(x);
    if x < 0 {
      assert s[1..] == NatToDecimal(-(x as int));
      DecimalValueOfNatToDecimal(-(x as int));
    } else {
      DecimalValueOfNatToDecimal(x);
    }
  }

  /** Parsing what Integer.toString prints gives back the same int. */
  lemma ParseIntOfToString(x: Int)
    ensures ParseInt(LongToString(x)) == Ok(x)
  {
    var s := LongToString(x);
    if x < 0 {
      assert s[1..] == NatToDecimal(-(x as int));
      DecimalValueOfNatToDecimal(-(x as int));
    } else {
      DecimalValueOfNatToDecimal(x);
    }
  }

  /**
    Long.hashCode(long): the int (int)(value ^ (value >>> 32)), i.e. the
    exclusive or of the two 32-bit halves, read as a signed int.
  */
  function LongHashCode(x: Long): (h: Int)
  {
    var u: int := if x < 0 then x + TWO_64 else x;
    var high: int := u / TWO_32;
    var low: int := u % TWO_32;
    assert 0 <= high < TWO_32 by { assert 0 <= u < TWO_32 * TWO_32; }
    var bits := ((low as bv32) ^ (high as bv32)) as int;
    if bits > INT_MAX then bits - TWO_32 else bits
  }
}
