/** The OSC message parser: address scan, tag scan and per-element offsets,
    over a fixed buffer and a 32-entry element table. */
module OscCore {
  import opened OscTypes

  const MaxElementsPerMessage: int := 32
  /** The largest byte array the .NET runtime allocates. */
  const MaxArrayLength: int := 0x7FFF_FFC7

  // ------------------------------------------------------------ address scan

  predicate HasNulFrom(buf: seq<byte>, i: int)
  {
    exists j :: 0 <= i <= j < |buf| && buf[j] == 0
  }

  /** The index of the first NUL at or after i. */
  function FirstNul(buf: seq<byte>, i: int): (k: int)
    requires 0 <= i && HasNulFrom(buf, i)
    ensures i <= k < |buf| && buf[k] == 0
    ensures forall j :: i <= j < k ==> buf[j] != 0
    decreases |buf| - i
  {
    if buf[i] == 0 then i else FirstNul(buf, i + 1)
  }

  /** What the address scan needs in order to stay inside the buffer: the
      starting byte exists and, when it is '/', a NUL follows at start+2 or later
      (the byte at start+1 is skipped without being looked at). */
  predicate AddressScannable(buf: seq<byte>, start: int)
  {
    0 <= start < |buf| && (buf[start] == ForwardSlash ==> HasNulFrom(buf, start + 2))
  }

  /** The unaligned address length the scan finds, or -1 when the message does not start with '/'. */
  function AddressLength(buf: seq<byte>, start: int): (n: int)
    requires AddressScannable(buf, start)
    ensures n == -1 <==> buf[start] != ForwardSlash
    ensures buf[start] == ForwardSlash ==>
      2 <= n && start + n < |buf| && buf[start + n] == 0 &&
      forall j :: start + 2 <= j < start + n ==> buf[j] != 0
  {
    if buf[start] != ForwardSlash then -1 else FirstNul(buf, start + 2) - start
  }

  /** `(n + 3) & ~3`, plus one more block when n is already aligned: the least
      multiple of 4 strictly greater than n, so the address keeps at least one NUL. */
  function AlignedAddressLength(n: int): (a: int)
    requires n >= 0
    ensures a % 4 == 0 && n < a <= n + 4
  {
    var a := RoundUp4(n);
    if a == n then a + 4 else a
  }

  // ---------------------------------------------------------------- tag scan

  predicate UnsupportedFrom(buf: seq<byte>, i: int)
  {
    exists j :: 0 <= i <= j < |buf| && !IsSupported(AsTag(buf[j]))
  }

  /** The number of consecutive supported tag bytes starting at i. */
  function SupportedRun(buf: seq<byte>, i: int): (n: nat)
    requires 0 <= i && UnsupportedFrom(buf, i)
    ensures i + n < |buf| && !IsSupported(AsTag(buf[i + n]))
    ensures forall j :: i <= j < i + n ==> IsSupported(AsTag(buf[j]))
    decreases |buf| - i
  {
    if !IsSupported(AsTag(buf[i])) then 0 else 1 + SupportedRun(buf, i + 1)
  }

  /** What the tag scan needs: the byte at p exists and, after a ',', an
      unsupported byte ends the tags inside the buffer before a 33rd tag would
      overflow the 32-entry table (the loop has no capacity check). */
  predicate TagsScannable(buf: seq<byte>, p: int)
  {
    && 0 <= p < |buf|
    && (buf[p] == Comma ==>
          exists j :: p + 1 <= j <= p + 1 + MaxElementsPerMessage && j < |buf| && !IsSupported(AsTag(buf[j])))
  }

  /** The size the tag scan reports: 0 without a ',', otherwise the tag count plus the ','. */
  function TagSize(buf: seq<byte>, p: int): (size: int)
    requires TagsScannable(buf, p)
    ensures buf[p] != Comma ==> size == 0
    ensures buf[p] == Comma ==>
      && 1 <= size <= MaxElementsPerMessage + 1
      && p + size < |buf| && !IsSupported(AsTag(buf[p + size]))
      && forall j :: p + 1 <= j < p + size ==> IsSupported(AsTag(buf[j]))
  {
    if buf[p] != Comma then 0 else SupportedRun(buf, p + 1) + 1
  }

  /** The element table's tags after a scan at p: the recognised tags, or the
      stale table when there is no ','. */
  function ParsedTags(buf: seq<byte>, p: int, stale: seq<TypeTag>): (t: seq<TypeTag>)
    requires TagsScannable(buf, p)
    ensures buf[p] != Comma ==> t == stale
    ensures buf[p] == Comma ==>
      |t| == TagSize(buf, p) - 1 && forall i :: 0 <= i < |t| ==> t[i] == AsTag(buf[p + 1 + i]) && IsSupported(t[i])
  {
    if buf[p] != Comma then stale else AsTags(buf[p + 1 .. p + TagSize(buf, p)])
  }

  /** `p + (tagSize + 4) & ~3`, which C# reads as `(p + tagSize + 4) & ~3`: always
      a multiple of 4, and, when p is aligned, p plus the tag string with at
      least one NUL padded to 4 bytes. */
  function ValuesStart(p: int, tagSize: int): (v: int)
    ensures v % 4 == 0
    ensures v <= p + tagSize + 4 < v + 4
    ensures p % 4 == 0 ==> v == p + RoundUp4(tagSize + 1)
  {
    ClearLow2(p + tagSize + 4)
  }

  // ------------------------------------------------------------ offsets

  /** The number of consecutive zero bytes from i, stopping before `end`. */
  function ZeroRun(buf: seq<byte>, i: int, end: int): (n: nat)
    requires 0 <= i && end <= |buf|
    ensures n == 0 || i + n <= end
    ensures forall j :: i <= j < i + n ==> buf[j] == 0
    ensures i + n < end ==> buf[i + n] != 0
    decreases end - i
  {
    if i >= end || buf[i] != 0 then 0 else 1 + ZeroRun(buf, i + 1, end)
  }

  /** The length the string scan reports at `offset`: the zero bytes from there,
      the scan ending at index `|buf| - offset`, rounded up to 4. */
  function StringLength(buf: seq<byte>, offset: int): (r: int)
    requires 0 <= offset
    ensures r >= 0 && r % 4 == 0
    ensures offset < |buf| && buf[offset] != 0 ==> r == 0
    ensures |buf| - offset <= offset ==> r == 0
  {
    RoundUp4(ZeroRun(buf, offset, |buf| - offset))
  }

  /** What advancing past an element reads: a string needs a non-negative
      offset (a negative one fails the array bounds check), a blob needs its
      4-byte size inside the buffer (the read behind it is unchecked). */
  predicate StepReadable(buf: seq<byte>, tag: TypeTag, offset: int)
  {
    && (tag == String || tag == AltTypeString ==> 0 <= offset)
    && (tag == Blob ==> 0 <= offset && offset + 4 <= |buf|)
  }

  predicate IsFourByte(tag: TypeTag) { tag in {Int32, Float32, Color32, AsciiChar32, Midi} }
  predicate IsEightByte(tag: TypeTag) { tag in {Float64, Int64, TimeTag} }

  /** How far an element with this tag moves the running offset. Where
      StepReadable fails the source throws or reads outside the array; the
      values given there are never used, since FindOffsets requires Readable. */
  function ElementSize(buf: seq<byte>, tag: TypeTag, offset: int, littleEndian: bool): int
  {
    if IsFourByte(tag) then 4
    else if IsEightByte(tag) then 8
    else if tag == String || tag == AltTypeString then
      if 0 <= offset then StringLength(buf, offset) else 0
    else if tag == Blob then
      if 0 <= offset && offset + 4 <= |buf| then 4 + Int32At(buf, offset, littleEndian) else 4
    else 0
  }

  /** Every tag but a blob advances by a non-negative multiple of 4; the tags
      without data and the unrecognised ones advance by nothing; a blob advances
      by 4 plus an int32. */
  lemma ElementSizeByTag(buf: seq<byte>, tag: TypeTag, offset: int, littleEndian: bool)
    ensures var r := ElementSize(buf, tag, offset, littleEndian);
      && (tag != Blob ==> 0 <= r && r % 4 == 0)
      && (tag in {False, True, Nil, Infinitum, ArrayStart, ArrayEnd} || !IsSupported(tag) ==> r == 0)
      && (tag == Blob ==> -TwoTo31 + 4 <= r < TwoTo31 + 4)
  {
  }

  /** The offset the running `int` reaches after one element (wrapping at 32 bits). */
  function NextOffset(buf: seq<byte>, tag: TypeTag, offset: int, littleEndian: bool): (r: int)
    ensures IsInt32(r)
  {
    Wrap32(offset + ElementSize(buf, tag, offset, littleEndian))
  }

  /** The running offset after one element is the exact sum reduced modulo 2^32,
      and is the exact sum when that does not overflow. */
  lemma NextOffsetWraps(buf: seq<byte>, tag: TypeTag, offset: int, littleEndian: bool)
    ensures var sum := offset + ElementSize(buf, tag, offset, littleEndian);
      && (NextOffset(buf, tag, offset, littleEndian) - sum) % TwoTo32 == 0
      && (IsInt32(sum) ==> NextOffset(buf, tag, offset, littleEndian) == sum)
  {
  }

  lemma NextOffsetBySize(buf: seq<byte>, tag: TypeTag, offset: int, littleEndian: bool, size: int)
    requires size == ElementSize(buf, tag, offset, littleEndian)
    ensures NextOffset(buf, tag, offset, littleEndian) == Wrap32(offset + size)
  {
  }

  /** The running offset before element k, starting at `start`. */
  function OffsetAt(buf: seq<byte>, tags: seq<TypeTag>, start: int, littleEndian: bool, k: nat): int
    requires k <= |tags|
  {
    if k == 0 then start else NextOffset(buf, tags[k - 1], OffsetAt(buf, tags, start, littleEndian, k - 1), littleEndian)
  }

  /** The first offset is the start; every later one is an int32. */
  lemma OffsetAtRange(buf: seq<byte>, tags: seq<TypeTag>, start: int, littleEndian: bool, k: nat)
    requires k <= |tags|
    ensures k == 0 ==> OffsetAt(buf, tags, start, littleEndian, k) == start
    ensures k > 0 ==> IsInt32(OffsetAt(buf, tags, start, littleEndian, k))
  {
  }

  /** The running offsets before each of the first n elements, in order. */
  function OffsetList(buf: seq<byte>, tags: seq<TypeTag>, start: int, littleEndian: bool, n: nat): (r: seq<int>)
    requires n <= |tags|
    ensures |r| == n
  {
    if n == 0 then [] else OffsetList(buf, tags, start, littleEndian, n - 1) + [OffsetAt(buf, tags, start, littleEndian, n - 1)]
  }

  lemma {:induction false} OffsetListAt(buf: seq<byte>, tags: seq<TypeTag>, start: int, littleEndian: bool, n: nat, k: nat)
    requires k < n <= |tags|
    ensures OffsetList(buf, tags, start, littleEndian, n)[k] == OffsetAt(buf, tags, start, littleEndian, k)
  {
    var before := OffsetList(buf, tags, start, littleEndian, n - 1);
    assert OffsetList(buf, tags, start, littleEndian, n) == before + [OffsetAt(buf, tags, start, littleEndian, n - 1)];
    if k < n - 1 {
      OffsetListAt(buf, tags, start, littleEndian, n - 1, k);
    }
  }

  /** The list of running offsets holds each element's offset, and each one is
      the step from the one before. */
  lemma OffsetListIsOffsets(buf: seq<byte>, tags: seq<TypeTag>, start: int, littleEndian: bool, offs: seq<int>)
    requires offs == OffsetList(buf, tags, start, littleEndian, |tags|)
    ensures forall k :: 0 <= k < |tags| ==> offs[k] == OffsetAt(buf, tags, start, littleEndian, k)
    ensures forall k :: 0 <= k < |tags| - 1 ==> offs[k + 1] == NextOffset(buf, tags[k], offs[k], littleEndian)
  {
    forall k | 0 <= k < |tags|
      ensures offs[k] == OffsetAt(buf, tags, start, littleEndian, k)
    {
      OffsetListAt(buf, tags, start, littleEndian, |tags|, k);
    }
    forall k | 0 <= k < |tags| - 1
      ensures offs[k + 1] == NextOffset(buf, tags[k], offs[k], littleEndian)
    {
      assert offs[k + 1] == OffsetAt(buf, tags, start, littleEndian, k + 1);
    }
  }

  /** Every element's advance stays inside what the source can read. */
  predicate Readable(buf: seq<byte>, tags: seq<TypeTag>, start: int, littleEndian: bool)
  {
    ReadableUpTo(buf, tags, start, littleEndian, |tags|)
  }

  /** The advances of the first n elements stay inside what the source can read. */
  predicate ReadableUpTo(buf: seq<byte>, tags: seq<TypeTag>, start: int, littleEndian: bool, n: nat)
    requires n <= |tags|
  {
    n == 0 || (ReadableUpTo(buf, tags, start, littleEndian, n - 1)
               && StepReadable(buf, tags[n - 1], OffsetAt(buf, tags, start, littleEndian, n - 1)))
  }

  /** Element i of a readable message can be stepped over. */
  lemma {:induction false} ReadableStep(buf: seq<byte>, tags: seq<TypeTag>, start: int, littleEndian: bool, n: nat, i: nat)
    requires i < n <= |tags| && ReadableUpTo(buf, tags, start, littleEndian, n)
    ensures StepReadable(buf, tags[i], OffsetAt(buf, tags, start, littleEndian, i))
  {
    if i < n - 1 {
      ReadableStep(buf, tags, start, littleEndian, n - 1, i);
    }
  }

  /** Everything a whole Parse at `start` needs, given the table's current tags. */
  predicate MessageParsable(buf: seq<byte>, start: int, stale: seq<TypeTag>, littleEndian: bool)
  {
    && AddressScannable(buf, start)
    && (buf[start] == ForwardSlash ==>
          var p := start + AlignedAddressLength(AddressLength(buf, start));
          && TagsScannable(buf, p)
          && Readable(buf, ParsedTags(buf, p, stale), ValuesStart(p, TagSize(buf, p)), littleEndian))
  }

  /** The element table after a successful parse whose tag string is at p:
      the tags found there (or the stale ones), each element's offset from the
      values start on, and every entry past the count as it was. */
  ghost predicate ParsedTable(buf: seq<byte>, p: int, stale: seq<TypeTag>, littleEndian: bool,
                              count: int, tags: seq<TypeTag>, offsets: seq<int>,
                              oldTags: seq<TypeTag>, oldOffsets: seq<int>)
    requires TagsScannable(buf, p)
  {
    var t := ParsedTags(buf, p, stale);
    && |tags| == |oldTags| && |offsets| == |oldOffsets|
    && count == |t| && count <= |tags| && count <= |offsets|
    && tags[..count] == t
    && (forall k :: count <= k < |tags| ==> tags[k] == oldTags[k])
    && (forall k :: 0 <= k < count ==> offsets[k] == OffsetAt(buf, t, ValuesStart(p, TagSize(buf, p)), littleEndian, k))
    && forall k :: count <= k < |offsets| ==> offsets[k] == oldOffsets[k]
  }

  // ------------------------------------------------------ address classification

  datatype AddressType = Invalid | Address | Pattern

  /** The characters OSC 1.0 reserves in an address. */
  const ReservedInAddress: set<char> := {' ', '#', '*', ',', '?', '[', ']', '{', '}'}
  /** The reserved characters a pattern may not contain either. */
  const ForbiddenInPattern: set<char> := {' ', '#', ','}
  /** The reserved characters that make an address a pattern. */
  const PatternCharacters: set<char> := {'*', '?', '[', ']', '{', '}'}

  /** The `foreach` of the source over a string, stopping at the first character of `cs`. */
  function ContainsAny(s: string, cs: set<char>): (r: bool)
    ensures r <==> exists i :: 0 <= i < |s| && s[i] in cs
  {
    |s| > 0 && (s[0] in cs || ContainsAny(s[1..], cs))
  }

  // ------------------------------------------------------------- the parser

  class OscParser {
    /** The packet buffer (`_buffer`); its contents are written by the receive loop. */
    const buffer: array<byte>
    /** `MessageValues._tags`, `MessageValues._offsets` and `MessageValues.ElementCount`. */
    const tags: array<TypeTag>
    const offsets: array<int>
    var elementCount: int
    /** The host's byte order, which the blob-size read uses. */
    const littleEndian: bool

    ghost predicate Valid()
      reads this
    {
      && buffer.Length <= MaxArrayLength
      && tags.Length == MaxElementsPerMessage
      && offsets.Length == MaxElementsPerMessage
      && 0 <= elementCount <= MaxElementsPerMessage
    }

    /** `OscParser(int capacity = 4096)`: a capacity under 256 is replaced by 4096. */
    constructor (capacity: int, littleEndian: bool)
      requires capacity <= MaxArrayLength
      ensures Valid() && fresh(buffer) && fresh(tags) && fresh(offsets)
      ensures buffer.Length == (if capacity < 256 then 4096 else capacity)
      ensures buffer.Length >= 256
      ensures forall i :: 0 <= i < buffer.Length ==> buffer[i] == 0
      ensures elementCount == 0 && this.littleEndian == littleEndian
    {
      var n := capacity;
      if n < 256 {
        n := 4096;
      }
      buffer := new byte[n](_ => 0);
      tags := new TypeTag[MaxElementsPerMessage](_ => 0);
      offsets := new int[MaxElementsPerMessage](_ => 0);
      elementCount := 0;
      this.littleEndian := littleEndian;
    }

    /** The obsolete `OscParser(byte[] fixedBuffer)`: parses in the caller's array. */
    constructor FromBuffer(fixedBuffer: array<byte>, littleEndian: bool)
      requires fixedBuffer.Length <= MaxArrayLength
      ensures Valid() && buffer == fixedBuffer && fresh(tags) && fresh(offsets)
      ensures elementCount == 0 && this.littleEndian == littleEndian
    {
      buffer := fixedBuffer;
      tags := new TypeTag[MaxElementsPerMessage](_ => 0);
      offsets := new int[MaxElementsPerMessage](_ => 0);
      elementCount := 0;
      this.littleEndian := littleEndian;
    }

    /** The address scan at the start of the buffer. */
    method FindUnalignedAddressLength() returns (r: int)
      requires AddressScannable(buffer[..], 0)
      ensures r == -1 <==> buffer[0] != ForwardSlash
      ensures buffer[0] == ForwardSlash ==>
        2 <= r < buffer.Length && buffer[r] == 0 && forall j :: 2 <= j < r ==> buffer[j] != 0
      ensures r == AddressLength(buffer[..], 0)
    {
      if buffer[0] != ForwardSlash {
        return -1;
      }
      var index := 1;
      index := index + 1;
      while buffer[index] != 0
        invariant 2 <= index < buffer.Length
        invariant forall j :: 2 <= j < index ==> buffer[j] != 0
        invariant HasNulFrom(buffer[..], index)
        decreases buffer.Length - index
      {
        index := index + 1;
      }
      r := index;
    }

    /** The address scan at `offset`; the result is relative to `offset`. */
    method FindUnalignedAddressLengthFrom(offset: int) returns (r: int)
      requires AddressScannable(buffer[..], offset)
      ensures r == -1 <==> buffer[offset] != ForwardSlash
      ensures buffer[offset] == ForwardSlash ==>
        2 <= r && offset + r < buffer.Length && buffer[offset + r] == 0 &&
        forall j :: offset + 2 <= j < offset + r ==> buffer[j] != 0
      ensures r == AddressLength(buffer[..], offset)
    {
      if buffer[offset] != ForwardSlash {
        return -1;
      }
      var index := offset + 1;
      index := index + 1;
      while buffer[index] != 0
        invariant offset + 2 <= index < buffer.Length
        invariant forall j :: offset + 2 <= j < index ==> buffer[j] != 0
        invariant HasNulFrom(buffer[..], index)
        decreases buffer.Length - index
      {
        index := index + 1;
      }
      r := index - offset;
    }

    /** Scans the tag string at `start` of `bytes` into the tag table and returns
        its size including the ','. Without a ',' nothing changes. */
    method ParseTags(bytes: array<byte>, start: int) returns (size: int)
      requires Valid()
      requires TagsScannable(bytes[..], start)
      modifies this`elementCount, tags
      ensures Valid()
      ensures size == TagSize(bytes[..], start)
      ensures bytes[start] != Comma ==>
        size == 0 && elementCount == old(elementCount) && tags[..] == old(tags[..])
      ensures bytes[start] == Comma ==>
        && size == elementCount + 1
        && tags[..elementCount] == ParsedTags(bytes[..], start, [])
        && (forall i :: 0 <= i < elementCount ==> tags[i] == AsTag(bytes[start + 1 + i]) && IsSupported(tags[i]))
        && !IsSupported(AsTag(bytes[start + 1 + elementCount]))
        && forall i :: elementCount <= i < tags.Length ==> tags[i] == old(tags[i])
    {
      if bytes[start] != Comma {
        return 0;
      }
      ghost var buf := bytes[..];
      ghost var n := SupportedRun(buf, start + 1);
      var tagIndex := start + 1;
      var outIndex := 0;
      while true
        invariant 0 <= outIndex <= n && tagIndex == start + 1 + outIndex
        invariant forall i :: 0 <= i < outIndex ==> tags[i] == AsTag(buf[start + 1 + i])
        invariant forall i :: outIndex <= i < tags.Length ==> tags[i] == old(tags[i])
        decreases n - outIndex
      {
        var tag := AsTag(bytes[tagIndex]);
        if !IsSupported(tag) {
          break;
        }
        tags[outIndex] := tag;
        tagIndex := tagIndex + 1;
        outIndex := outIndex + 1;
      }
      assert outIndex == n && n + 1 == TagSize(buf, start);
      assert tags[..outIndex] == ParsedTags(buf, start, []);
      elementCount := outIndex;
      size := outIndex + 1;
    }

    /** The zero-byte scan used for string elements. */
    method GetStringLength(offset: int) returns (r: int)
      requires 0 <= offset
      ensures r == StringLength(buffer[..], offset)
      ensures r >= 0 && r % 4 == 0
      ensures offset < buffer.Length && buffer[offset] != 0 ==> r == 0
      ensures buffer.Length - offset <= offset ==> r == 0
    {
      var end := buffer.Length - offset;
      var index := offset;
      while index < end
        invariant offset <= index && (index <= end || index == offset)
        invariant ZeroRun(buffer[..], offset, end) == index - offset + ZeroRun(buffer[..], index, end)
      {
        if buffer[index] != 0 {
          break;
        }
        index := index + 1;
      }
      var length := index - offset;
      r := RoundUp4(length);
    }

    /** The `switch` of FindOffsets: how far the element with `tag` at `offset`
        moves the running offset (fixed widths, the string scan, or the 4-byte
        blob size read in host order plus its 4 bytes; other tags add 0). */
    method ElementLength(tag: TypeTag, offset: int) returns (size: int)
      requires StepReadable(buffer[..], tag, offset)
      ensures size == ElementSize(buffer[..], tag, offset, littleEndian)
    {
      size := 0;
      if IsFourByte(tag) {
        size := 4;
      } else if IsEightByte(tag) {
        size := 8;
      } else if tag == String || tag == AltTypeString {
        size := GetStringLength(offset);
      } else if tag == Blob {
        size := 4 + Int32At(buffer[..], offset, littleEndian);
      }
    }

    /** Records the byte offset of every element, starting at `offset`. */
    method FindOffsets(offset: int)
      requires Valid() && IsInt32(offset)
      requires Readable(buffer[..], tags[..elementCount], offset, littleEndian)
      modifies offsets
      ensures elementCount > 0 ==> offsets[0] == offset
      ensures forall k :: 0 <= k < elementCount - 1 ==>
        offsets[k + 1] == NextOffset(buffer[..], tags[k], offsets[k], littleEndian)
      ensures forall k :: 0 <= k < elementCount ==>
        offsets[k] == OffsetAt(buffer[..], tags[..elementCount], offset, littleEndian, k)
      ensures forall k :: elementCount <= k < offsets.Length ==> offsets[k] == old(offsets[k])
    {
      ghost var buf := buffer[..];
      ghost var t := tags[..elementCount];
      var running := offset;
      for i := 0 to elementCount
        invariant buffer[..] == buf && tags[..elementCount] == t
        invariant running == OffsetAt(buf, t, offset, littleEndian, i)
        invariant offsets[..i] == OffsetList(buf, t, offset, littleEndian, i)
        invariant forall k :: elementCount <= k < offsets.Length ==> offsets[k] == old(offsets[k])
      {
        ReadableStep(buf, t, offset, littleEndian, |t|, i);
        var size := ElementLength(tags[i], running);
        var next := Wrap32(running + size);
        assert OffsetAt(buf, t, offset, littleEndian, i + 1) == next by {
          NextOffsetBySize(buf, t[i], running, littleEndian, size);
        }
        offsets[i] := running;
        assert offsets[..i + 1] == offsets[..i] + [running];
        running := next;
      }
      ghost var found := offsets[..elementCount];
      OffsetListIsOffsets(buf, t, offset, littleEndian, found);
      forall k | 0 <= k < elementCount
        ensures offsets[k] == OffsetAt(buf, t, offset, littleEndian, k)
      {
        assert offsets[k] == found[k];
      }
      forall k | 0 <= k < elementCount - 1
        ensures offsets[k + 1] == NextOffset(buf, tags[k], offsets[k], littleEndian)
      {
        assert offsets[k] == found[k] && offsets[k + 1] == found[k + 1] && tags[k] == t[k];
      }
    }

    /** Steps 3 and 4 of both Parse methods: the tag scan at p, then the offsets
        from the first 4-byte boundary after the tag string. */
    method ParseElements(p: int)
      requires Valid()
      requires TagsScannable(buffer[..], p)
      requires Readable(buffer[..], ParsedTags(buffer[..], p, tags[..elementCount]),
                        ValuesStart(p, TagSize(buffer[..], p)), littleEndian)
      modifies this`elementCount, tags, offsets
      ensures Valid()
      ensures ParsedTable(buffer[..], p, old(tags[..elementCount]), littleEndian,
                          elementCount, tags[..], offsets[..], old(tags[..]), old(offsets[..]))
    {
      ghost var buf := buffer[..];
      ghost var t := ParsedTags(buf, p, tags[..elementCount]);
      var tagSize := ParseTags(buffer, p);
      ghost var parsedTags := tags[..];
      assert tags[..elementCount] == t && tagSize == TagSize(buf, p);
      var offset := ValuesStart(p, tagSize);
      assert IsInt32(offset) by {
        assert 0 <= p < buffer.Length && 0 <= tagSize <= MaxElementsPerMessage + 1;
      }
      FindOffsets(offset);
      assert tags[..] == parsedTags && buffer[..] == buf;
    }

    /** Parses one non-bundle message at the start of the buffer and returns the
        unaligned address length, or -1 (leaving the table alone) without a '/'. */
    method Parse() returns (r: int)
      requires Valid()
      requires MessageParsable(buffer[..], 0, tags[..elementCount], littleEndian)
      modifies this`elementCount, tags, offsets
      ensures Valid()
      ensures r == AddressLength(buffer[..], 0)
      ensures r < 0 ==>
        elementCount == old(elementCount) && tags[..] == old(tags[..]) && offsets[..] == old(offsets[..])
      ensures r >= 0 ==>
        ParsedTable(buffer[..], AlignedAddressLength(r), old(tags[..elementCount]), littleEndian,
                    elementCount, tags[..], offsets[..], old(tags[..]), old(offsets[..]))
    {
      var addressLength := FindUnalignedAddressLength();
      if addressLength < 0 {
        return addressLength;
      }
      var alignedAddressLength := AlignedAddressLength(addressLength);
      ParseElements(alignedAddressLength);
      r := addressLength;
    }

    /** Parses one non-bundle message that starts at `startingByteOffset`. */
    method ParseFrom(startingByteOffset: int) returns (r: int)
      requires Valid()
      requires MessageParsable(buffer[..], startingByteOffset, tags[..elementCount], littleEndian)
      modifies this`elementCount, tags, offsets
      ensures Valid()
      ensures r == AddressLength(buffer[..], startingByteOffset)
      ensures r < 0 ==>
        elementCount == old(elementCount) && tags[..] == old(tags[..]) && offsets[..] == old(offsets[..])
      ensures r >= 0 ==>
        ParsedTable(buffer[..], startingByteOffset + AlignedAddressLength(r), old(tags[..elementCount]), littleEndian,
                    elementCount, tags[..], offsets[..], old(tags[..]), old(offsets[..]))
    {
      var addressLength := FindUnalignedAddressLengthFrom(startingByteOffset);
      if addressLength < 0 {
        return addressLength;
      }
      var alignedAddressLength := AlignedAddressLength(addressLength);
      var startPlusAlignedLength := startingByteOffset + alignedAddressLength;
      ParseElements(startPlusAlignedLength);
      r := addressLength;
    }

    /** The length from a '[' tag to its ']' (the first one after it), or -1 when
        `offset` does not hold '['. */
    static method FindArrayLength(bytes: array<byte>, offset: int) returns (r: int)
      requires 0 <= offset < bytes.Length
      requires AsTag(bytes[offset]) == ArrayStart ==>
        exists j :: offset + 1 <= j < bytes.Length && AsTag(bytes[j]) == ArrayEnd
      ensures r == -1 <==> AsTag(bytes[offset]) != ArrayStart
      ensures AsTag(bytes[offset]) == ArrayStart ==>
        && 1 <= r && offset + r < bytes.Length && AsTag(bytes[offset + r]) == ArrayEnd
        && forall j :: offset + 1 <= j < offset + r ==> AsTag(bytes[j]) != ArrayEnd
    {
      if AsTag(bytes[offset]) != ArrayStart {
        return -1;
      }
      var index := offset + 1;
      while AsTag(bytes[index]) != ArrayEnd
        invariant offset + 1 <= index < bytes.Length
        invariant forall j :: offset + 1 <= j < index ==> AsTag(bytes[j]) != ArrayEnd
        invariant exists j :: index <= j < bytes.Length && AsTag(bytes[j]) == ArrayEnd
        decreases bytes.Length - index
      {
        index := index + 1;
      }
      r := index - offset;
    }

    /** A character OSC 1.0 allows in a literal address (none of space # * , ? [ ] { }). */
    static function CharacterIsValidInAddress(c: char): (r: bool)
      ensures r <==> c !in ReservedInAddress
    {
      match c
      case ' ' | '#' | '*' | ',' | '?' | '[' | ']' | '{' | '}' => false
      case _ => true
    }

    /** A literal address: starts with '/' and has no reserved character. */
    static function AddressIsValid(address: string): (r: bool)
      requires |address| > 0
      ensures r <==>
        address[0] == '/' && forall i :: 0 <= i < |address| ==> CharacterIsValidInAddress(address[i])
    {
      address[0] == '/' && !ContainsAny(address, ReservedInAddress)
    }

    /** Classifies an address: literal, pattern (has a wildcard or bracket but no
        space, '#' or ','), or invalid. */
    static function GetAddressType(address: string): (t: AddressType)
      requires |address| > 0
      ensures address[0] != '/' ==> t == Invalid
      ensures t == Address <==> AddressIsValid(address)
      ensures t == Pattern <==>
        && address[0] == '/'
        && (exists i :: 0 <= i < |address| && address[i] in PatternCharacters)
        && forall i :: 0 <= i < |address| ==> address[i] !in ForbiddenInPattern
    {
      if address[0] != '/' then Invalid
      else if !ContainsAny(address, ReservedInAddress) then Address
      else if ContainsAny(address, ForbiddenInPattern) then Invalid
      else Pattern
    }
  }
}
