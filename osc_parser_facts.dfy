/** What the parser's specification functions imply for messages laid out by the
    OSC 1.0 rules, and the corrected scans beside the ones the parser uses. */
module OscParserFacts {
  import opened OscTypes
  import opened OscCore

  function Zeros(n: nat): (r: seq<byte>)
    ensures |r| == n && forall i :: 0 <= i < n ==> r[i] == 0
  {
    seq(n, _ => 0)
  }

  /** An OSC-string: the bytes, then one to four NULs up to a 4-byte boundary. */
  function OscString(s: seq<byte>): (r: seq<byte>)
    ensures |r| % 4 == 0 && |s| < |r| <= |s| + 4
    ensures r[..|s|] == s && forall i :: |s| <= i < |r| ==> r[i] == 0
  {
    s + Zeros(AlignedAddressLength(|s|) - |s|)
  }

  predicate NoNul(s: seq<byte>) { forall i :: 0 <= i < |s| ==> s[i] != 0 }

  /** The first NUL is the one that ends a NUL-free run. */
  lemma FirstNulAt(buf: seq<byte>, i: int, k: int)
    requires 0 <= i <= k < |buf| && buf[k] == 0
    requires forall j :: i <= j < k ==> buf[j] != 0
    ensures HasNulFrom(buf, i) && FirstNul(buf, i) == k
  {
  }

  // -------------------------------------------------------------- address

  /** A '/'-address of at least two bytes, written as an OSC-string anywhere in
      the buffer, scans to exactly its own length, and its aligned length is
      the OSC-string's length (so the tag string is found right behind it). */
  lemma {:induction false} AddressRoundTrip(prefix: seq<byte>, a: seq<byte>, rest: seq<byte>)
    requires |a| >= 2 && a[0] == ForwardSlash && NoNul(a)
    ensures var buf := prefix + OscString(a) + rest;
      && AddressScannable(buf, |prefix|)
      && AddressLength(buf, |prefix|) == |a|
      && AlignedAddressLength(|a|) == |OscString(a)|
  {
    var buf := prefix + OscString(a) + rest;
    var s := |prefix|;
    assert buf[s] == a[0];
    forall j | s + 2 <= j < s + |a| ensures buf[j] != 0 {
      assert buf[j] == a[j - s];
    }
    assert buf[s + |a|] == 0;
    FirstNulAt(buf, s + 2, s + |a|);
  }

  /** The root address "/" scans to length 2: the byte after '/' is skipped. */
  lemma RootAddressAsWritten(rest: seq<byte>)
    ensures var buf := OscString([ForwardSlash]) + rest;
      AddressScannable(buf, 0) && AddressLength(buf, 0) == 2
  {
    var buf := OscString([ForwardSlash]) + rest;
    assert buf[..4] == [ForwardSlash, 0, 0, 0];
    assert buf[2] == 0;
    FirstNulAt(buf, 2, 2);
  }

  predicate AddressScannableFromSlash(buf: seq<byte>, start: int)
  {
    0 <= start < |buf| && (buf[start] == ForwardSlash ==> HasNulFrom(buf, start + 1))
  }

  /** The address scan starting right after the '/'. */
  function CorrectedAddressLength(buf: seq<byte>, start: int): (n: int)
    requires AddressScannableFromSlash(buf, start)
    ensures n == -1 <==> buf[start] != ForwardSlash
    ensures buf[start] == ForwardSlash ==>
      1 <= n && start + n < |buf| && buf[start + n] == 0 &&
      forall j :: start + 1 <= j < start + n ==> buf[j] != 0
  {
    if buf[start] != ForwardSlash then -1 else FirstNul(buf, start + 1) - start
  }

  /** Every '/'-address, the root included, scans to its own length. */
  lemma {:induction false} CorrectedAddressRoundTrip(prefix: seq<byte>, a: seq<byte>, rest: seq<byte>)
    requires |a| >= 1 && a[0] == ForwardSlash && NoNul(a)
    ensures var buf := prefix + OscString(a) + rest;
      AddressScannableFromSlash(buf, |prefix|) && CorrectedAddressLength(buf, |prefix|) == |a|
  {
    var buf := prefix + OscString(a) + rest;
    var s := |prefix|;
    assert buf[s] == a[0];
    forall j | s + 1 <= j < s + |a| ensures buf[j] != 0 {
      assert buf[j] == a[j - s];
    }
    assert buf[s + |a|] == 0;
    FirstNulAt(buf, s + 1, s + |a|);
  }

  /** The two scans agree whenever the address has a byte after the '/'. */
  lemma CorrectedAgreesPastRoot(buf: seq<byte>, start: int)
    requires AddressScannable(buf, start) && buf[start] == ForwardSlash
    requires start + 1 < |buf| && buf[start + 1] != 0
    ensures AddressScannableFromSlash(buf, start)
    ensures CorrectedAddressLength(buf, start) == AddressLength(buf, start)
  {
  }

  // ------------------------------------------------------------ tag string

  predicate AllSupported(ts: seq<byte>) { forall i :: 0 <= i < |ts| ==> IsSupported(AsTag(ts[i])) }

  /** Two ways of writing the OSC-string length of n bytes agree. */
  lemma AlignedIsRoundUp(n: nat)
    ensures AlignedAddressLength(n) == RoundUp4(n + 1)
  {
  }

  /** Where the bytes of an OSC-string written behind `prefix` land in the buffer. */
  lemma OscStringLaidOut(prefix: seq<byte>, s: seq<byte>, rest: seq<byte>)
    ensures var buf := prefix + OscString(s) + rest;
      && |prefix| + |s| < |buf|
      && buf[|prefix| .. |prefix| + |s|] == s
      && buf[|prefix| + |s|] == 0
  {
  }

  /** The tag scan over a buffer where a ',' and the supported tags ts stand at p,
      followed by a NUL. */
  lemma TagScanOfLaidOutTags(buf: seq<byte>, p: int, ts: seq<byte>, stale: seq<TypeTag>)
    requires 0 <= p && p + 1 + |ts| < |buf| && buf[p] == Comma
    requires buf[p + 1 .. p + 1 + |ts|] == ts && buf[p + 1 + |ts|] == 0
    requires AllSupported(ts) && |ts| <= MaxElementsPerMessage
    ensures TagsScannable(buf, p) && TagSize(buf, p) == |ts| + 1
    ensures ParsedTags(buf, p, stale) == AsTags(ts)
  {
  }

  /** A tag string of up to 32 supported tags, written as an OSC-string, scans
      to exactly those tags; after an aligned start, the values begin right
      behind its padding. */
  lemma TagScanRoundTrip(prefix: seq<byte>, ts: seq<byte>, rest: seq<byte>, stale: seq<TypeTag>)
    requires AllSupported(ts) && |ts| <= MaxElementsPerMessage
    ensures var buf := prefix + OscString([Comma] + ts) + rest;
      && TagsScannable(buf, |prefix|)
      && TagSize(buf, |prefix|) == |ts| + 1
      && ParsedTags(buf, |prefix|, stale) == AsTags(ts)
      && (|prefix| % 4 == 0 ==>
            ValuesStart(|prefix|, TagSize(buf, |prefix|)) == |prefix| + |OscString([Comma] + ts)|)
  {
    var tagString := [Comma] + ts;
    var buf := prefix + OscString(tagString) + rest;
    var p := |prefix|;
    OscStringLaidOut(prefix, tagString, rest);
    assert buf[p] == buf[p .. p + |tagString|][0] == Comma;
    assert buf[p + 1 .. p + 1 + |ts|] == buf[p .. p + |tagString|][1..] == ts;
    TagScanOfLaidOutTags(buf, p, ts, stale);
    AlignedIsRoundUp(|tagString|);
  }

  /** The scan of a complete message header "address, tags": the address
      length, the tags and where the values begin, as the OSC 1.0 layout has them. */
  lemma MessageHeaderRoundTrip(a: seq<byte>, ts: seq<byte>, rest: seq<byte>, stale: seq<TypeTag>)
    requires |a| >= 2 && a[0] == ForwardSlash && NoNul(a)
    requires AllSupported(ts) && |ts| <= MaxElementsPerMessage
    ensures var buf := OscString(a) + OscString([Comma] + ts) + rest;
      var p := AlignedAddressLength(|a|);
      && AddressScannable(buf, 0) && AddressLength(buf, 0) == |a|
      && p == |OscString(a)|
      && TagsScannable(buf, p) && ParsedTags(buf, p, stale) == AsTags(ts)
      && ValuesStart(p, TagSize(buf, p)) == |OscString(a)| + |OscString([Comma] + ts)|
  {
    var tail := OscString([Comma] + ts) + rest;
    AddressRoundTrip([], a, tail);
    assert [] + OscString(a) + tail == OscString(a) + OscString([Comma] + ts) + rest;
    TagScanRoundTrip(OscString(a), ts, rest, stale);
  }

  /** "/ping" with the tag string ",": address length 5 and no elements. */
  lemma PingExample(rest: seq<byte>, stale: seq<TypeTag>)
    ensures var buf := OscString([0x2F, 0x70, 0x69, 0x6E, 0x67]) + OscString([Comma]) + rest;
      && AddressScannable(buf, 0) && AddressLength(buf, 0) == 5
      && TagsScannable(buf, 8) && ParsedTags(buf, 8, stale) == []
  {
    MessageHeaderRoundTrip([0x2F, 0x70, 0x69, 0x6E, 0x67], [], rest, stale);
    assert [Comma] + [] == [Comma];
  }

  /** The bytes of the address "/composition/tempo". */
  const TempoAddress: seq<byte> :=
    [0x2F, 0x63, 0x6F, 0x6D, 0x70, 0x6F, 0x73, 0x69, 0x74, 0x69, 0x6F, 0x6E, 0x2F, 0x74, 0x65, 0x6D, 0x70, 0x6F]

  /** "/composition/tempo" with the tag string ",f": address length 18, one
      Float32 element whose value starts at byte 24. */
  lemma TempoExample(rest: seq<byte>, stale: seq<TypeTag>)
    ensures var buf := OscString(TempoAddress) + OscString([Comma, 0x66]) + rest;
      && AddressScannable(buf, 0) && AddressLength(buf, 0) == 18
      && TagsScannable(buf, 20) && ParsedTags(buf, 20, stale) == [Float32]
      && ValuesStart(20, TagSize(buf, 20)) == 24
  {
    var tags: seq<byte> := [0x66];
    assert [Comma] + tags == [Comma, 0x66];
    assert |TempoAddress| == 18 && AlignedAddressLength(18) == 20;
    assert |OscString([Comma, 0x66])| == 4;
    MessageHeaderRoundTrip(TempoAddress, tags, rest, stale);
  }

  /** `p + (tagSize + 4) & ~3` groups as `(p + tagSize + 4) & ~3`: from a start
      that is not 4-aligned the values start falls short of the padded tag string. */
  lemma ValuesStartFromUnalignedStart()
    ensures ValuesStart(5, 2) == 8 && 5 + RoundUp4(2 + 1) == 9
  {
  }

  // ----------------------------------------------------------- offsets

  lemma Wrap32KeepsAlignment(x: int)
    ensures Wrap32(x) % 4 == x % 4
  {
    var r := Wrap32(x);
    var q := (x - r) / TwoTo32;
    assert x - r == q * TwoTo32;
    assert q * TwoTo32 == 4 * (q * 0x4000_0000);
  }

  lemma StepKeepsAlignment(buf: seq<byte>, tag: TypeTag, o: int, littleEndian: bool)
    requires o % 4 == 0 && BlobKeepsAlignment(buf, tag, o, littleEndian)
    ensures NextOffset(buf, tag, o, littleEndian) % 4 == 0
  {
    var size := ElementSize(buf, tag, o, littleEndian);
    ElementSizeKeepsAlignment(buf, tag, o, littleEndian);
    AlignedStep(o, size);
    NextOffsetBySize(buf, tag, o, littleEndian, size);
  }

  lemma AlignedStep(o: int, size: int)
    requires o % 4 == 0 && size % 4 == 0
    ensures Wrap32(o + size) % 4 == 0
  {
    Wrap32KeepsAlignment(o + size);
  }

  lemma ElementSizeKeepsAlignment(buf: seq<byte>, tag: TypeTag, offset: int, littleEndian: bool)
    requires BlobKeepsAlignment(buf, tag, offset, littleEndian)
    ensures ElementSize(buf, tag, offset, littleEndian) % 4 == 0
  {
  }

  /** A blob's content, rounded up, keeps the 4-byte grid. */
  predicate BlobKeepsAlignment(buf: seq<byte>, tag: TypeTag, offset: int, littleEndian: bool)
  {
    tag == Blob && 0 <= offset && offset + 4 <= |buf| ==> Int32At(buf, offset, littleEndian) % 4 == 0
  }

  /** Each of the first k elements that is a blob keeps the 4-byte grid. */
  predicate BlobsKeepAlignment(buf: seq<byte>, tags: seq<TypeTag>, start: int, littleEndian: bool, k: nat)
    requires k <= |tags|
  {
    k == 0 ||
    (BlobsKeepAlignment(buf, tags, start, littleEndian, k - 1) &&
     BlobKeepsAlignment(buf, tags[k - 1], OffsetAt(buf, tags, start, littleEndian, k - 1), littleEndian))
  }

  /** From an aligned start every element offset is aligned, as long as no blob
      with a size that is not a multiple of 4 intervenes. */
  lemma {:induction false} OffsetsStayAligned(buf: seq<byte>, tags: seq<TypeTag>, start: int, littleEndian: bool, k: nat)
    requires start % 4 == 0 && k <= |tags|
    requires BlobsKeepAlignment(buf, tags, start, littleEndian, k)
    ensures OffsetAt(buf, tags, start, littleEndian, k) % 4 == 0
  {
    if k > 0 {
      OffsetsStayAligned(buf, tags, start, littleEndian, k - 1);
      var o := OffsetAt(buf, tags, start, littleEndian, k - 1);
      StepKeepsAlignment(buf, tags[k - 1], o, littleEndian);
    }
  }

  lemma {:induction false} NoBlobsKeepAlignment(buf: seq<byte>, tags: seq<TypeTag>, start: int, littleEndian: bool, k: nat)
    requires k <= |tags| && forall i :: 0 <= i < |tags| ==> tags[i] != Blob
    ensures BlobsKeepAlignment(buf, tags, start, littleEndian, k)
  {
    if k > 0 {
      NoBlobsKeepAlignment(buf, tags, start, littleEndian, k - 1);
    }
  }

  /** A message without blobs, whose values start aligned, has every element
      offset aligned. */
  lemma WithoutBlobsOffsetsAligned(buf: seq<byte>, tags: seq<TypeTag>, start: int, littleEndian: bool)
    requires start % 4 == 0 && forall i :: 0 <= i < |tags| ==> tags[i] != Blob
    ensures forall k :: 0 <= k <= |tags| ==> OffsetAt(buf, tags, start, littleEndian, k) % 4 == 0
  {
    forall k | 0 <= k <= |tags|
      ensures OffsetAt(buf, tags, start, littleEndian, k) % 4 == 0
    {
      NoBlobsKeepAlignment(buf, tags, start, littleEndian, k);
      OffsetsStayAligned(buf, tags, start, littleEndian, k);
    }
  }

  /** A one-byte blob (size 1, big-endian, then its byte and three bytes of
      padding) followed by an int: the int's offset is taken as 5, inside the
      blob's padding, on a big-endian host, and far past it on a little-endian one. */
  lemma BlobPaddingIgnored()
    ensures var buf := BigEndianBytes(1) + [7, 0, 0, 0] + BigEndianBytes(42);
      && OffsetAt(buf, [Blob, Int32], 0, false, 1) == 5
      && OffsetAt(buf, [Blob, Int32], 0, true, 1) == 4 + 0x100_0000
  {
  }

  /** The blob size as OSC 1.0 writes it (big-endian), the size prefix, and
      the content padded to a 4-byte boundary. */
  function CorrectedBlobLength(buf: seq<byte>, offset: int): (n: int)
    requires 0 <= offset && offset + 4 <= |buf|
    ensures n % 4 == 0
  {
    4 + RoundUp4(Int32At(buf, offset, false))
  }

  predicate IsBlobContent(data: seq<byte>) { |data| < TwoTo31 }

  /** An OSC-blob: a big-endian int32 size, the bytes, then NULs to a 4-byte boundary. */
  function OscBlob(data: seq<byte>): (r: seq<byte>)
    requires IsBlobContent(data)
    ensures |r| % 4 == 0
  {
    BigEndianBytes(|data|) + data + Zeros(RoundUp4(|data|) - |data|)
  }

  /** The corrected advance steps over exactly one encoded blob. */
  lemma CorrectedBlobRoundTrip(prefix: seq<byte>, data: seq<byte>, rest: seq<byte>)
    requires IsBlobContent(data)
    ensures var buf := prefix + OscBlob(data) + rest;
      |prefix| + 4 <= |buf| && CorrectedBlobLength(buf, |prefix|) == |OscBlob(data)|
  {
    var buf := prefix + OscBlob(data) + rest;
    var after := data + Zeros(RoundUp4(|data|) - |data|) + rest;
    assert buf[|prefix|..] == BigEndianBytes(|data|) + after;
    BigEndianRoundTrip(|data|, after);
    assert buf[|prefix|..][..4] == buf[|prefix|..|prefix| + 4];
  }

  // ------------------------------------------------------------- strings

  /** The string "ab" as an OSC-string is reported as 0 bytes long: the scan
      stops at the first byte that is not zero. */
  lemma StringLengthAsWritten(rest: seq<byte>)
    ensures StringLength(OscString([0x61, 0x62]) + rest, 0) == 0
  {
  }

  /** The length of the OSC-string at `offset`: its bytes up to the first NUL,
      the NUL, and the padding to a 4-byte boundary. */
  function CorrectedStringLength(buf: seq<byte>, offset: int): (n: int)
    requires 0 <= offset && HasNulFrom(buf, offset)
    ensures n % 4 == 0 && 0 < n
  {
    AlignedAddressLength(FirstNul(buf, offset) - offset)
  }

  /** The corrected length steps over exactly one encoded string. */
  lemma CorrectedStringRoundTrip(prefix: seq<byte>, s: seq<byte>, rest: seq<byte>)
    requires NoNul(s)
    ensures var buf := prefix + OscString(s) + rest;
      HasNulFrom(buf, |prefix|) && CorrectedStringLength(buf, |prefix|) == |OscString(s)|
  {
    var buf := prefix + OscString(s) + rest;
    var p := |prefix|;
    forall j | p <= j < p + |s| ensures buf[j] != 0 {
      assert buf[j] == s[j - p];
    }
    assert buf[p + |s|] == 0;
    FirstNulAt(buf, p, p + |s|);
  }
}
