/**
  The part of the MessagePack format that the edge record uses, written the
  way the msgpack-java packer and unpacker read and write it:
  - the int format family (positive and negative fixint, uint 8/16/32/64,
    int 8/16/32/64), where the packer picks the format from the value;
  - the str format family (fixstr, str 8/16/32) over UTF-8 bytes;
  - the map header (fixmap, map 16, map 32).
  Multi-byte numbers are big-endian. Every reader takes the input and gives
  back the value together with the bytes left over, so that readers chain the
  way an unpacker's cursor advances.
*/
module MsgPack {
  import opened Wrappers
  import opened JavaLang

  type Byte = x: int | 0 <= x < 256
  type Bytes = seq<Byte>

  /** A value read from the front of the input, and the input that follows it. */
  datatype Decoded<T> = Decoded(value: T, rest: Bytes)

  // First bytes of the formats in use.
  const POSFIXINT_MAX: int := 0x7f
  const FIXMAP_PREFIX: int := 0x80
  const FIXSTR_PREFIX: int := 0xa0
  const UINT8: int := 0xcc
  const UINT16: int := 0xcd
  const UINT32: int := 0xce
  const UINT64: int := 0xcf
  const INT8: int := 0xd0
  const INT16: int := 0xd1
  const INT32: int := 0xd2
  const INT64: int := 0xd3
  const STR8: int := 0xd9
  const STR16: int := 0xda
  const STR32: int := 0xdb
  const MAP16: int := 0xde
  const MAP32: int := 0xdf
  const NEGFIXINT_PREFIX: int := 0xe0

  function Pow256(n: nat): (p: nat)
    ensures p >= 1
  {
    if n == 0 then 1 else 256 * Pow256(n - 1)
  }

  lemma Pow256Widths()
    ensures Pow256(1) == 0x100 && Pow256(2) == 0x1_0000
    ensures Pow256(4) == TWO_32 && Pow256(8) == TWO_64
  {
  }

  // ----- big-endian unsigned numbers -----

  /** The width-byte big-endian spelling of n. */
  function BigEndian(n: nat, width: nat): (r: Bytes)
    requires n < Pow256(width)
    ensures |r| == width
  {
    if width == 0 then [] else BigEndian(n / 256, width - 1) + [n % 256]
  }

  /** The unsigned number a big-endian byte string spells. */
  function FromBigEndian(s: Bytes): (n: nat)
    ensures n < Pow256(|s|)
  {
    if |s| == 0 then 0 else FromBigEndian(s[..|s| - 1]) * 256 + s[|s| - 1]
  }

  lemma {:induction false} FromBigEndianOfBigEndian(n: nat, width: nat)
    requires n < Pow256(width)
    ensures FromBigEndian(BigEndian(n, width)) == n
  {
    if width > 0 {
      var s := BigEndian(n, width);
      assert s[..|s| - 1] == BigEndian(n / 256, width - 1);
      FromBigEndianOfBigEndian(n / 256, width - 1);
    }
  }

  /** Reads a width-byte big-endian number; fails when the input is too short. */
  function ReadBigEndian(s: Bytes, width: nat): (r: Result<Decoded<nat>>)
    ensures r.Ok? ==> |s| >= width && r.value.value < Pow256(width) && r.value.rest == s[width..]
  {
    if |s| < width then Err(MalformedRecord) else Ok(Decoded(FromBigEndian(s[..width]), s[width..]))
  }

  lemma ReadBigEndianOfBigEndian(n: nat, width: nat, rest: Bytes)
    requires n < Pow256(width)
    ensures ReadBigEndian(BigEndian(n, width) + rest, width) == Ok(Decoded(n, rest))
  {
    var s := BigEndian(n, width) + rest;
    assert s[..width] == BigEndian(n, width);
    assert s[width..] == rest;
    FromBigEndianOfBigEndian(n, width);
  }

  /** A format byte followed by the width-byte big-endian spelling of n. */
  function Tagged(tag: Byte, n: nat, width: nat): (r: Bytes)
    requires n < Pow256(width)
    ensures |r| == width + 1 && r[0] == tag
  {
    [tag] + BigEndian(n, width)
  }

  lemma ReadTagged(tag: Byte, n: nat, width: nat, rest: Bytes)
    requires n < Pow256(width)
    ensures (Tagged(tag, n, width) + rest)[0] == tag
    ensures ReadBigEndian((Tagged(tag, n, width) + rest)[1..], width) == Ok(Decoded(n, rest))
  {
    assert (Tagged(tag, n, width) + rest)[1..] == BigEndian(n, width) + rest;
    ReadBigEndianOfBigEndian(n, width, rest);
  }

  /** Two's complement: the signed number a width-byte unsigned number stands for. */
  function Signed(u: nat, width: nat): (x: int)
    requires u < Pow256(width)
    ensures -(Pow256(width) as int) <= 2 * x < Pow256(width)
  {
    if 2 * u >= Pow256(width) then u - Pow256(width) else u
  }

  // ----- the int format family -----

  /**
    MessagePacker.packLong: the value goes into the shortest format the
    packer's cascade of comparisons selects, negatives into the signed
    formats and non-negatives into the unsigned ones.
  */
  function PackLong(x: Long): (r: Bytes)
    ensures |r| in {1, 2, 3, 5, 9}
    ensures |r| == 1 <==> -32 <= x < 128
  {
    Pow256Widths();
    if x < -32 then
      if x < -0x8000 then
        if x < INT_MIN then Tagged(INT64, x + TWO_64, 8)
        else Tagged(INT32, x + TWO_32, 4)
      else if x < -0x80 then Tagged(INT16, x + 0x1_0000, 2)
      else Tagged(INT8, x + 0x100, 1)
    else if x < 0x80 then
      [if x < 0 then x + 0x100 else x]
    else if x < 0x1_0000 then
      if x < 0x100 then Tagged(UINT8, x, 1) else Tagged(UINT16, x, 2)
    else if x < TWO_32 then Tagged(UINT32, x, 4)
    else Tagged(UINT64, x, 8)
  }

  /** A signed big-endian number of the given width after the format byte. */
  function ReadSigned(s: Bytes, width: nat): (r: Result<Decoded<int>>)
  {
    match ReadBigEndian(s, width)
    case Err(e) => Err(e)
    case Ok(d) => Ok(Decoded(Signed(d.value, width), d.rest))
  }

  /**
    MessageUnpacker.unpackLong: reads any format of the int family; a uint 64
    above the largest long is an integer overflow, anything else a type error.
  */
  function UnpackLong(s: Bytes): (r: Result<Decoded<Long>>)
    ensures r.Ok? ==> |r.value.rest| < |s|
  {
    Pow256Widths();
    if |s| == 0 then Err(MalformedRecord)
    else
      var b := s[0];
      if b <= POSFIXINT_MAX then Ok(Decoded(b, s[1..]))
      else if b >= NEGFIXINT_PREFIX then Ok(Decoded(b - 0x100, s[1..]))
      else if b == UINT8 || b == UINT16 || b == UINT32 || b == UINT64 then
        var width := if b == UINT8 then 1 else if b == UINT16 then 2 else if b == UINT32 then 4 else 8;
        match ReadBigEndian(s[1..], width)
        case Err(e) => Err(e)
        case Ok(d) => if d.value > LONG_MAX then Err(MalformedRecord) else Ok(Decoded(d.value, d.rest))
      else if b == INT8 || b == INT16 || b == INT32 || b == INT64 then
        var width := if b == INT8 then 1 else if b == INT16 then 2 else if b == INT32 then 4 else 8;
        match ReadSigned(s[1..], width)
        case Err(e) => Err(e)
        case Ok(d) => Ok(Decoded(d.value, d.rest))
      else Err(MalformedRecord)
  }

  /** Unpacking what packLong wrote gives back the same long and leaves what follows untouched. */
  lemma UnpackLongOfPackLong(x: Long, rest: Bytes)
    ensures UnpackLong(PackLong(x) + rest) == Ok(Decoded(x, rest))
  {
    Pow256Widths();
    if x < -32 {
      if x < -0x8000 {
        if x < INT_MIN { ReadTagged(INT64, x + TWO_64, 8, rest); }
        else { ReadTagged(INT32, x + TWO_32, 4, rest); }
      } else if x < -0x80 { ReadTagged(INT16, x + 0x1_0000, 2, rest); }
      else { ReadTagged(INT8, x + 0x100, 1, rest); }
    } else if x < 0x80 {
      assert (PackLong(x) + rest)[1..] == rest;
    } else if x < 0x1_0000 {
      if x < 0x100 { ReadTagged(UINT8, x, 1, rest); }
      else { ReadTagged(UINT16, x, 2, rest); }
    } else if x < TWO_32 { ReadTagged(UINT32, x, 4, rest); }
    else { ReadTagged(UINT64, x, 8, rest); }
  }

  /** The first byte of every int-family format. */
  predicate IsIntFormat(b: Byte) {
    b <= POSFIXINT_MAX || b >= NEGFIXINT_PREFIX || UINT8 <= b <= INT64
  }

  lemma PackLongFormat(x: Long)
    ensures IsIntFormat(PackLong(x)[0])
  {
  }

  // ----- UTF-8 -----

  predicate IsContinuation(b: Byte) {
    0x80 <= b < 0xc0
  }

  /** The UTF-8 encoding of one Unicode scalar value: one to four bytes. */
  function EncodeChar(c: char): (r: Bytes)
    ensures 1 <= |r| <= 4
  {
    var n := c as int;
    if n < 0x80 then [n]
    else if n < 0x800 then [0xc0 + n / 0x40, 0x80 + n % 0x40]
    else if n < 0x1_0000 then [0xe0 + n / 0x1000, 0x80 + n / 0x40 % 0x40, 0x80 + n % 0x40]
    else [0xf0 + n / 0x4_0000, 0x80 + n / 0x1000 % 0x40, 0x80 + n / 0x40 % 0x40, 0x80 + n % 0x40]
  }

  /**
    Reads one UTF-8 encoded scalar value. Overlong forms, surrogates, values
    above U+10FFFF, stray continuation bytes and truncated sequences are
    malformed.
  */
  function DecodeChar(s: Bytes): (r: Result<Decoded<char>>)
    ensures r.Ok? ==> |r.value.rest| < |s|
  {
    if |s| == 0 then Err(MalformedRecord)
    else
      var b: int := s[0];
      if b < 0x80 then Ok(Decoded(b as char, s[1..]))
      else if 0xc2 <= b < 0xe0 then
        if |s| < 2 || !IsContinuation(s[1]) then Err(MalformedRecord)
        else Ok(Decoded(((b - 0xc0) * 0x40 + (s[1] as int - 0x80)) as char, s[2..]))
      else if 0xe0 <= b < 0xf0 then
        if |s| < 3 || !IsContinuation(s[1]) || !IsContinuation(s[2]) then Err(MalformedRecord)
        else
          var n := (b - 0xe0) * 0x1000 + (s[1] as int - 0x80) * 0x40 + (s[2] as int - 0x80);
          if n < 0x800 || 0xd800 <= n < 0xe000 then Err(MalformedRecord)
          else Ok(Decoded(n as char, s[3..]))
      else if 0xf0 <= b < 0xf5 then
        if |s| < 4 || !IsContinuation(s[1]) || !IsContinuation(s[2]) || !IsContinuation(s[3]) then Err(MalformedRecord)
        else
          var n := (b - 0xf0) * 0x4_0000 + (s[1] as int - 0x80) * 0x1000 + (s[2] as int - 0x80) * 0x40 + (s[3] as int - 0x80);
          if n < 0x1_0000 || n > 0x10_FFFF then Err(MalformedRecord)
          else Ok(Decoded(n as char, s[4..]))
      else Err(MalformedRecord)
  }

  lemma DecodeCharOfEncodeChar(c: char, rest: Bytes)
    ensures DecodeChar(EncodeChar(c) + rest) == Ok(Decoded(c, rest))
  {
    var n := c as int;
    if n < 0x80 {
      assert (EncodeChar(c) + rest)[1..] == rest;
    } else if n < 0x800 {
      DecodeTwoBytes(c, rest);
    } else if n < 0x1_0000 {
      DecodeThreeBytes(c, rest);
    } else {
      DecodeFourBytes(c, rest);
    }
  }

  lemma DecodeTwoBytes(c: char, rest: Bytes)
    requires 0x80 <= c as int < 0x800
    ensures DecodeChar(EncodeChar(c) + rest) == Ok(Decoded(c, rest))
  {
    var n := c as int;
    var s := EncodeChar(c) + rest;
    assert s[0] as int == 0xc0 + n / 0x40 && s[1] as int == 0x80 + n % 0x40;
    assert (s[0] as int - 0xc0) * 0x40 + (s[1] as int - 0x80) == n;
    assert s[2..] == rest;
  }

  lemma DecodeThreeBytes(c: char, rest: Bytes)
    requires 0x800 <= c as int < 0x1_0000
    ensures DecodeChar(EncodeChar(c) + rest) == Ok(Decoded(c, rest))
  {
    var n := c as int;
    var s := EncodeChar(c) + rest;
    assert s[0] as int == 0xe0 + n / 0x1000;
    assert s[1] as int == 0x80 + n / 0x40 % 0x40 && s[2] as int == 0x80 + n % 0x40;
    SixBitGroups(n);
    assert s[3..] == rest;
  }

  /** A code point is the sum of its 6-bit groups, as UTF-8 splits it. */
  lemma SixBitGroups(n: nat)
    ensures (n / 0x1000) * 0x1000 + (n / 0x40 % 0x40) * 0x40 + n % 0x40 == n
    ensures (n / 0x4_0000) * 0x4_0000 + (n / 0x1000 % 0x40) * 0x1000 + (n / 0x40 % 0x40) * 0x40 + n % 0x40 == n
  {
    var a, b, c := n / 0x4_0000, n / 0x1000, n / 0x40;
    assert c / 0x40 == b;
    assert b / 0x40 == a;
  }

  lemma DecodeFourBytes(c: char, rest: Bytes)
    requires 0x1_0000 <= c as int
    ensures DecodeChar(EncodeChar(c) + rest) == Ok(Decoded(c, rest))
  {
    var n := c as int;
    var s := EncodeChar(c) + rest;
    assert s[0] as int == 0xf0 + n / 0x4_0000;
    assert s[1] as int == 0x80 + n / 0x1000 % 0x40;
    assert s[2] as int == 0x80 + n / 0x40 % 0x40 && s[3] as int == 0x80 + n % 0x40;
    SixBitGroups(n);
    assert s[4..] == rest;
  }

  /** String.getBytes(UTF_8) for a string of scalar values. */
  function Utf8(s: string): (r: Bytes)
    ensures |s| <= |r| <= 4 * |s|
  {
    if |s| == 0 then [] else EncodeChar(s[0]) + Utf8(s[1..])
  }

  /** Decodes a whole byte string as UTF-8. */
  function DecodeUtf8(s: Bytes): (r: Result<string>)
    ensures r.Ok? ==> |r.value| <= |s|
    decreases |s|
  {
    if |s| == 0 then Ok([])
    else
      match DecodeChar(s)
      case Err(e) => Err(e)
      case Ok(d) =>
        match DecodeUtf8(d.rest)
        case Err(e) => Err(e)
        case Ok(tail) => Ok([d.value] + tail)
  }

  lemma {:induction false} DecodeUtf8OfUtf8(s: string)
    ensures DecodeUtf8(Utf8(s)) == Ok(s)
  {
    if |s| > 0 {
      DecodeCharOfEncodeChar(s[0], Utf8(s[1..]));
      DecodeUtf8OfUtf8(s[1..]);
      assert [s[0]] + s[1..] == s;
    }
  }

  // ----- the str format family -----

  /** MessagePacker.packRawStringHeader: the shortest str header for a payload of n bytes. */
  function StrHeader(n: nat): (r: Bytes)
    requires n < TWO_32
    ensures 1 <= |r| <= 5
  {
    Pow256Widths();
    if n < 32 then [FIXSTR_PREFIX + n]
    else if n < 0x100 then Tagged(STR8, n, 1)
    else if n < 0x1_0000 then Tagged(STR16, n, 2)
    else Tagged(STR32, n, 4)
  }

  /** MessagePacker.packString: the str header for the UTF-8 length, then the UTF-8 bytes. */
  function PackString(s: JString): (r: Bytes)
    ensures |r| > |Utf8(s)|
  {
    var bytes := Utf8(s);
    StrHeader(|bytes|) + bytes
  }

  /** The first byte of every str-family format. */
  predicate IsStrFormat(b: Byte) {
    FIXSTR_PREFIX <= b < FIXSTR_PREFIX + 32 || STR8 <= b <= STR32
  }

  /**
    MessageUnpacker.unpackRawStringHeader: the payload length. The str 32
    length is read into a Java int, so one of 2^31 or more is an overflow.
  */
  function UnpackStrHeader(s: Bytes): (r: Result<Decoded<nat>>)
    ensures r.Ok? ==> |r.value.rest| < |s| && r.value.value < 0x8000_0000
  {
    Pow256Widths();
    if |s| == 0 then Err(MalformedRecord)
    else
      var b := s[0];
      if FIXSTR_PREFIX <= b < FIXSTR_PREFIX + 32 then Ok(Decoded(b - FIXSTR_PREFIX, s[1..]))
      else if b == STR8 || b == STR16 || b == STR32 then
        var width := if b == STR8 then 1 else if b == STR16 then 2 else 4;
        match ReadBigEndian(s[1..], width)
        case Err(e) => Err(e)
        case Ok(d) => if d.value >= 0x8000_0000 then Err(MalformedRecord) else Ok(d)
      else Err(MalformedRecord)
  }

  lemma UnpackStrHeaderOfStrHeader(n: nat, rest: Bytes)
    requires n < 0x8000_0000
    ensures UnpackStrHeader(StrHeader(n) + rest) == Ok(Decoded(n, rest))
  {
    Pow256Widths();
    if n < 32 {
      assert (StrHeader(n) + rest)[1..] == rest;
    } else if n < 0x100 {
      ReadTagged(STR8, n, 1, rest);
    } else if n < 0x1_0000 {
      ReadTagged(STR16, n, 2, rest);
    } else {
      ReadTagged(STR32, n, 4, rest);
    }
  }

  /**
    MessageUnpacker.unpackString: a str header, then that many bytes decoded
    as UTF-8.
  */
  function UnpackString(s: Bytes): (r: Result<Decoded<JString>>)
    ensures r.Ok? ==> |r.value.rest| < |s|
  {
    match UnpackStrHeader(s)
    case Err(e) => Err(e)
    case Ok(h) =>
      if |h.rest| < h.value then Err(MalformedRecord)
      else
        match DecodeUtf8(h.rest[..h.value])
        case Err(e) => Err(e)
        case Ok(str) =>
          if |str| >= JSTRING_BOUND then Err(MalformedRecord)
          else Ok(Decoded(str, h.rest[h.value..]))
  }

  /** Unpacking what packString wrote gives back the same string and leaves what follows untouched. */
  lemma UnpackStringOfPackString(x: JString, rest: Bytes)
    ensures UnpackString(PackString(x) + rest) == Ok(Decoded(x, rest))
  {
    var bytes := Utf8(x);
    var s := PackString(x) + rest;
    assert s == StrHeader(|bytes|) + (bytes + rest);
    UnpackStrHeaderOfStrHeader(|bytes|, bytes + rest);
    assert (bytes + rest)[..|bytes|] == bytes;
    assert (bytes + rest)[|bytes|..] == rest;
    DecodeUtf8OfUtf8(x);
  }

  lemma PackStringFormat(x: JString)
    ensures IsStrFormat(PackString(x)[0]) && !IsIntFormat(PackString(x)[0])
  {
  }

  // ----- the map header -----

  /** MessagePacker.packMapHeader: the shortest map header for n entries. */
  function MapHeader(n: nat): (r: Bytes)
    requires n < TWO_32
    ensures 1 <= |r| <= 5
  {
    Pow256Widths();
    if n < 16 then [FIXMAP_PREFIX + n]
    else if n < 0x1_0000 then Tagged(MAP16, n, 2)
    else Tagged(MAP32, n, 4)
  }

  /**
    MessageUnpacker.unpackMapHeader: the number of entries. The map 32 count
    is read into a Java int, so one of 2^31 or more is an overflow.
  */
  function UnpackMapHeader(s: Bytes): (r: Result<Decoded<nat>>)
    ensures r.Ok? ==> |r.value.rest| < |s| && r.value.value < 0x8000_0000
  {
    Pow256Widths();
    if |s| == 0 then Err(MalformedRecord)
    else
      var b := s[0];
      if FIXMAP_PREFIX <= b < FIXMAP_PREFIX + 16 then Ok(Decoded(b - FIXMAP_PREFIX, s[1..]))
      else if b == MAP16 || b == MAP32 then
        var width := if b == MAP16 then 2 else 4;
        match ReadBigEndian(s[1..], width)
        case Err(e) => Err(e)
        case Ok(d) => if d.value >= 0x8000_0000 then Err(MalformedRecord) else Ok(d)
      else Err(MalformedRecord)
  }

  lemma UnpackMapHeaderOfMapHeader(n: nat, rest: Bytes)
    requires n < 0x8000_0000
    ensures UnpackMapHeader(MapHeader(n) + rest) == Ok(Decoded(n, rest))
  {
    Pow256Widths();
    if n < 16 {
      assert (MapHeader(n) + rest)[1..] == rest;
    } else if n < 0x1_0000 {
      ReadTagged(MAP16, n, 2, rest);
    } else {
      ReadTagged(MAP32, n, 4, rest);
    }
  }
}
