/** Bytes, OSC type tags and the 32-bit integer arithmetic the parser relies on. */
module OscTypes {

  newtype byte = b: int | 0 <= b < 0x100

  /** A type-tag character, as the byte that carries it in the tag string. */
  newtype TypeTag = t: int | 0 <= t < 0x100

  const Comma: byte := 0x2C         // ','
  const ForwardSlash: byte := 0x2F  // '/'

  // The tag alphabet of Open Sound Control 1.0 ("OSC Type Tag Strings"), standard and non-standard.
  const False: TypeTag := 0x46          // 'F'
  const Infinitum: TypeTag := 0x49      // 'I'
  const Nil: TypeTag := 0x4E            // 'N'
  const AltTypeString: TypeTag := 0x53  // 'S'
  const True: TypeTag := 0x54           // 'T'
  const ArrayStart: TypeTag := 0x5B     // '['
  const ArrayEnd: TypeTag := 0x5D       // ']'
  const Blob: TypeTag := 0x62           // 'b'
  const AsciiChar32: TypeTag := 0x63    // 'c'
  const Float64: TypeTag := 0x64        // 'd'
  const Float32: TypeTag := 0x66        // 'f'
  const Int64: TypeTag := 0x68          // 'h'
  const Int32: TypeTag := 0x69          // 'i'
  const Midi: TypeTag := 0x6D           // 'm'
  const Color32: TypeTag := 0x72        // 'r'
  const String: TypeTag := 0x73         // 's'
  const TimeTag: TypeTag := 0x74        // 't'

  /** The tags the parser recognises; any other byte (in particular the NUL
      that ends a tag string) stops the tag scan. */
  predicate IsSupported(t: TypeTag)
  {
    t in {False, Infinitum, Nil, AltTypeString, True, ArrayStart, ArrayEnd, Blob,
          AsciiChar32, Float64, Float32, Int64, Int32, Midi, Color32, String, TimeTag}
  }

  /** The `(TypeTag)b` cast of the source. */
  function AsTag(b: byte): (t: TypeTag)
    ensures t as int == b as int
  {
    b as int as TypeTag
  }

  function AsTags(s: seq<byte>): (r: seq<TypeTag>)
    ensures |r| == |s| && forall i :: 0 <= i < |s| ==> r[i] == AsTag(s[i])
  {
    seq(|s|, i requires 0 <= i < |s| => AsTag(s[i]))
  }

  /** Every recognised tag is an ASCII letter or a bracket, so no NUL, space or
      control byte continues a tag string. */
  lemma SupportedTagsArePrintable(t: TypeTag)
    ensures IsSupported(t) ==> 0x41 <= t <= 0x5D || 0x62 <= t <= 0x74
  {
  }

  /** The padding byte is never a tag, so a NUL-terminated tag string always stops. */
  lemma NulIsNotSupported()
    ensures !IsSupported(AsTag(0))
  {
  }

  // ---------------------------------------------------------------- 32-bit integers

  const TwoTo32: int := 0x1_0000_0000
  const TwoTo31: int := 0x8000_0000

  predicate IsInt32(x: int) { -TwoTo31 <= x < TwoTo31 }

  /** C#'s unchecked `int` arithmetic: the value congruent to x modulo 2^32 in the int32 range. */
  function Wrap32(x: int): (r: int)
    ensures IsInt32(r)
    ensures (x - r) % TwoTo32 == 0
    ensures IsInt32(x) ==> r == x
  {
    var m := x % TwoTo32;
    if m < TwoTo31 then m else m - TwoTo32
  }

  /** `x & ~3` on a two's-complement integer: x rounded down to a multiple of 4. */
  function ClearLow2(x: int): (r: int)
    ensures r % 4 == 0 && r <= x < r + 4
  {
    x - x % 4
  }

  /** `(n + 3) & ~3`: n rounded up to a multiple of 4. */
  function RoundUp4(n: int): (r: int)
    ensures r % 4 == 0 && n <= r < n + 4
  {
    ClearLow2(n + 3)
  }

  /** The unsigned value of four bytes, first byte least significant or most significant. */
  function Unsigned32(b0: byte, b1: byte, b2: byte, b3: byte, littleEndian: bool): (u: int)
    ensures 0 <= u < TwoTo32
  {
    if littleEndian then
      b0 as int + 0x100 * b1 as int + 0x1_0000 * b2 as int + 0x100_0000 * b3 as int
    else
      b3 as int + 0x100 * b2 as int + 0x1_0000 * b1 as int + 0x100_0000 * b0 as int
  }

  /** Reinterpretation of an unsigned 32-bit pattern as a signed `int`. */
  function ToSigned32(u: int): (v: int)
    requires 0 <= u < TwoTo32
    ensures IsInt32(v) && (u - v) % TwoTo32 == 0
  {
    if u < TwoTo31 then u else u - TwoTo32
  }

  /** The first byte is the lowest byte of the value in little-endian order and
      the highest in big-endian order. */
  lemma Unsigned32ByteOrder(b0: byte, b1: byte, b2: byte, b3: byte, littleEndian: bool)
    ensures var u := Unsigned32(b0, b1, b2, b3, littleEndian);
      && u % 0x100 == (if littleEndian then b0 else b3) as int
      && u / 0x100_0000 == (if littleEndian then b3 else b0) as int
  {
    var lo, m1, m2, hi := b0 as int, b1 as int, b2 as int, b3 as int;
    if !littleEndian {
      lo, m1, m2, hi := b3 as int, b2 as int, b1 as int, b0 as int;
    }
    var upper := m1 + 0x100 * m2 + 0x1_0000 * hi;
    var lower := lo + 0x100 * m1 + 0x1_0000 * m2;
    assert Unsigned32(b0, b1, b2, b3, littleEndian) == lo + 0x100 * upper;
    assert Unsigned32(b0, b1, b2, b3, littleEndian) == lower + 0x100_0000 * hi;
    assert 0 <= lower < 0x100_0000;
  }

  /** Values below 2^31 read as themselves; the others read as negative. */
  lemma ToSigned32Sign(u: int)
    requires 0 <= u < TwoTo32
    ensures u < TwoTo31 ==> ToSigned32(u) == u
    ensures ToSigned32(u) < 0 <==> u >= TwoTo31
  {
  }

  /** The `int` stored in s[i..i+4] in the given byte order. */
  function Int32At(s: seq<byte>, i: int, littleEndian: bool): (v: int)
    requires 0 <= i && i + 4 <= |s|
    ensures IsInt32(v)
  {
    ToSigned32(Unsigned32(s[i], s[i + 1], s[i + 2], s[i + 3], littleEndian))
  }

  /** The big-endian (network order) encoding of an `int`, as OSC 1.0 writes int32 values. */
  function BigEndianBytes(x: int): (r: seq<byte>)
    requires IsInt32(x)
    ensures |r| == 4
  {
    var u := if x < 0 then x + TwoTo32 else x;
    var a := u / 0x100;
    var b := a / 0x100;
    var c := b / 0x100;
    [c as byte, (b % 0x100) as byte, (a % 0x100) as byte, (u % 0x100) as byte]
  }

  /** Reading a big-endian int32 back returns the value that was written. */
  lemma BigEndianRoundTrip(x: int, rest: seq<byte>)
    requires IsInt32(x)
    ensures Int32At(BigEndianBytes(x) + rest, 0, false) == x
  {
    var u := if x < 0 then x + TwoTo32 else x;
    var a := u / 0x100;
    var b := a / 0x100;
    var c := b / 0x100;
    assert u == 0x100 * a + u % 0x100;
    assert a == 0x100 * b + a % 0x100;
    assert b == 0x100 * c + b % 0x100;
    var s := BigEndianBytes(x) + rest;
    assert s[0] as int == c && s[1] as int == b % 0x100 && s[2] as int == a % 0x100 && s[3] as int == u % 0x100;
    assert Unsigned32(s[0], s[1], s[2], s[3], false) == u;
  }
}
