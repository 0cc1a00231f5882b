# OscCore message parser and blob handles in Dafny

This project models the receive-side core of OscCore, a C# library for Open
Sound Control (OSC 1.0) over UDP:

- **`OscParser`** scans one OSC message in a fixed packet buffer. It finds the
  unaligned length of the '/'-address, reads the ','-tag string into a
  32-entry element table, and computes the byte offset of every value. It
  also has static helpers that classify addresses (literal address or
  pattern) and measure arrays.
- **`BlobHandle`** is a non-owning view of `Length` bytes. The bytes sit
  either behind a raw pointer or inside a managed array at an offset. The
  handle is used as a hash key.
- **`BlobString`** owns the encoded bytes of a string, pinned in memory, plus
  a handle over them. It passes equality and hashing on to that handle.

Modules:

- `OscTypes` (`osc_types.dfy`): bytes, type tags, and C#'s unchecked 32-bit
  arithmetic. This covers the wrap-around of `int`, `x & ~3`, and reading
  an `int` from four bytes in either byte order.
- `OscCore` (`osc_parser.dfy`): the class `OscParser` and its specification
  functions. The class has the buffer, the tag and offset tables and the
  element count as fields. The scans are methods with loop invariants,
  proved against the specification functions (`AddressLength`, `TagSize`,
  `ParsedTags`, `StringLength`, `OffsetAt`).
- `OscParserFacts` (`osc_parser_facts.dfy`): two kinds of lemma.
  - What the scans do on messages laid out by the OSC 1.0 rules: round
    trips for OSC-strings, tag strings and blobs, and offset alignment.
  - The corrected scans behind the Findings below.
- `BlobHandles` (`blob_handle.dfy`): the `readonly struct` `BlobHandle` as a
  datatype, plus `MemoryCompare` as a loop.
- `BlobStrings` (`blob_string.dfy`): `BlobString` as a class, because its
  string constructor fills a pinned buffer and `Dispose` releases it.

The parser, the handle and the string follow the code as written, including
the defects listed under Findings. The corrected members stand next to them, and
each one has its intended property proved.

Two counts follow the code directly:

- The address length of `"/composition/tempo"` is 18, the number of bytes
  in the address. The scan at `src/BuildSoft.OscCore/OscParser.cs:185-197`
  returns the index of the NUL that ends the address
  (`OscParserFacts.TempoExample`).
- The recognised tags include `S` (alternate string), because the element
  switch at `src/BuildSoft.OscCore/OscParser.cs:252-255` advances past it
  like a string.

The host byte order is a parameter of the parser (`littleEndian`), because
the blob size is read in host order. Text encoding is a parameter of the
string constructor (`encode`).

## Model

| member | source | states |
|---|---|---|
| OscTypes.Wrap32 | src/BuildSoft.OscCore/OscParser.cs:245-258 | unchecked `int` addition: the result is in the int32 range, congruent to the exact sum modulo 2^32, and equal to it when no overflow happens |
| OscTypes.ClearLow2 | src/BuildSoft.OscCore/OscParser.cs:60 | `x & ~3` is the largest multiple of 4 not above x |
| OscTypes.RoundUp4 | src/BuildSoft.OscCore/OscParser.cs:225 | `(n + 3) & ~3` is the least multiple of 4 not below n |
| OscTypes.Int32At | src/BuildSoft.OscCore/OscParser.cs:258 | the four bytes at an index read as an int32 in the given byte order |
| OscTypes.BigEndianRoundTrip | src/BuildSoft.OscCore/OscParser.cs:258 | a big-endian int32 read back returns the value that was written |
| OscTypes.Unsigned32 | src/BuildSoft.OscCore/OscParser.cs:258 | four bytes as an unsigned 32-bit value, in [0, 2^32) |
| OscTypes.Unsigned32ByteOrder | src/BuildSoft.OscCore/OscParser.cs:258 | the first byte is the lowest byte of that value in little-endian order and the highest in big-endian order, and the last byte the other way round |
| OscTypes.ToSigned32 | src/BuildSoft.OscCore/OscParser.cs:258 | reading the pattern as `int`: in the int32 range and congruent to it modulo 2^32 |
| OscTypes.ToSigned32Sign | src/BuildSoft.OscCore/OscParser.cs:258 | a pattern below 2^31 reads as itself, and the `int` is negative exactly when the pattern is 2^31 or more |
| OscTypes.SupportedTagsArePrintable | src/BuildSoft.OscCore/OscParser.cs:173-174 | every tag `IsSupported` accepts, and so every tag that continues the tag scan, is an ASCII letter or bracket, so no NUL or control byte continues it |
| OscTypes.AsTag | src/BuildSoft.OscCore/OscParser.cs:173 | the `(TypeTag)` cast keeps the byte's value |
| OscTypes.NulIsNotSupported | src/BuildSoft.OscCore/OscParser.cs:173-174 | the NUL padding byte is not a tag, so a padded tag string ends the scan |
| OscCore.FirstNul | src/BuildSoft.OscCore/OscParser.cs:191-195 | the index of the first NUL at or after i |
| OscCore.AddressLength | src/BuildSoft.OscCore/OscParser.cs:185-213 | -1 exactly when the byte is not '/'; otherwise the distance to the first NUL at start+2 or later, at least 2 |
| OscCore.AlignedAddressLength | src/BuildSoft.OscCore/OscParser.cs:53-57 | the least multiple of 4 strictly above n, so at least one NUL stays in the padding |
| OscCore.SupportedRun | src/BuildSoft.OscCore/OscParser.cs:171-178 | the run of supported tag bytes from i, ended by an unsupported byte |
| OscCore.TagSize | src/BuildSoft.OscCore/OscParser.cs:164-183 | 0 without a ','; otherwise 1 plus the number of supported tags, at most 33, with an unsupported byte right after |
| OscCore.ParsedTags | src/BuildSoft.OscCore/OscParser.cs:164-183 | the stale table without a ','; otherwise exactly the supported tag bytes after the ',', in order |
| OscCore.ValuesStart | src/BuildSoft.OscCore/OscParser.cs:60 | `p + (tagSize + 4) & ~3` is aligned; from an aligned p it is p plus the tag string padded to 4 with at least one NUL |
| OscCore.ZeroRun | src/BuildSoft.OscCore/OscParser.cs:219-222 | the number of zero bytes from i before the first non-zero byte or the end index |
| OscCore.StringLength | src/BuildSoft.OscCore/OscParser.cs:215-226 | the reported string length is a non-negative multiple of 4; it is 0 whenever the first byte is not zero, and 0 for every offset at or past `Length - offset` |
| OscCore.ElementSizeByTag | src/BuildSoft.OscCore/OscParser.cs:237-260 | `ElementSize`, the advance for one tag, is a non-negative multiple of 4 for every tag but a blob; 0 for F, T, N, I, [, ] and unrecognised tags; for a blob, 4 plus an int32 |
| OscCore.NextOffset | src/BuildSoft.OscCore/OscParser.cs:236-259 | the running `int` after one element stays in the int32 range |
| OscCore.NextOffsetWraps | src/BuildSoft.OscCore/OscParser.cs:236-259 | that running `int` is congruent modulo 2^32 to the offset plus the element's advance, and equal to it without overflow |
| OscCore.OffsetAtRange | src/BuildSoft.OscCore/OscParser.cs:234-259 | `OffsetAt`, the running offset before element k, is the start for k = 0 and an int32 after it; alignment and the step from one offset to the next are OffsetsStayAligned and FindOffsets |
| OscCore.OffsetListIsOffsets | src/BuildSoft.OscCore/OscParser.cs:234-259 | the list of the first offsets holds `OffsetAt` at every index, and each entry is the previous one advanced by its tag |
| OscCore.ContainsAny | src/BuildSoft.OscCore/OscParser.cs:94-109 | true exactly when some character of the string is in the set |
| OscCore.OscParser.constructor | src/BuildSoft.OscCore/OscParser.cs:31-39 | a zeroed buffer of the given capacity, or of 4096 bytes when the capacity is under 256; empty element table |
| OscCore.OscParser.FromBuffer | src/BuildSoft.OscCore/OscParser.cs:23-27 | the parser reads the caller's array itself; empty element table |
| OscCore.OscParser.FindUnalignedAddressLength | src/BuildSoft.OscCore/OscParser.cs:185-197 | -1 without '/'; otherwise the index of the first NUL from 2 on |
| OscCore.OscParser.FindUnalignedAddressLengthFrom | src/BuildSoft.OscCore/OscParser.cs:199-213 | the same scan at an offset, the result relative to the offset |
| OscCore.OscParser.ParseTags | src/BuildSoft.OscCore/OscParser.cs:164-183 | without ',' returns 0 and changes nothing; otherwise writes the supported tags in order, sets the count, returns count+1, and leaves later entries alone |
| OscCore.OscParser.GetStringLength | src/BuildSoft.OscCore/OscParser.cs:215-226 | returns StringLength: a multiple of 4, 0 when the first byte is not zero, and 0 at or past index `Length - offset` |
| OscCore.OscParser.ElementLength | src/BuildSoft.OscCore/OscParser.cs:237-260 | the advance for one tag: 4 or 8 for fixed widths, the string scan, 4 plus the host-order blob size, and 0 for tags without data |
| OscCore.OscParser.FindOffsets | src/BuildSoft.OscCore/OscParser.cs:230-262 | offset 0 is the start; each later offset is the previous one advanced by its tag, wrapping at 32 bits; entries past the count stay as they were |
| OscCore.OscParser.ParseElements | src/BuildSoft.OscCore/OscParser.cs:59-61 | the tag scan at p, then offsets from p + (tagSize + 4) & ~3 |
| OscCore.OscParser.Parse | src/BuildSoft.OscCore/OscParser.cs:45-63 | returns the address length; on -1 the table is untouched; otherwise the table holds the tags and offsets of the message |
| OscCore.OscParser.ParseFrom | src/BuildSoft.OscCore/OscParser.cs:69-88 | the same for a message at `startingByteOffset` |
| OscCore.OscParser.FindArrayLength | src/BuildSoft.OscCore/OscParser.cs:275-285 | -1 without '['; otherwise the distance to the first ']' after it |
| OscCore.OscParser.CharacterIsValidInAddress | src/BuildSoft.OscCore/OscParser.cs:114-121 | true exactly for characters outside space # * , ? [ ] { } |
| OscCore.OscParser.AddressIsValid | src/BuildSoft.OscCore/OscParser.cs:90-112 | true exactly when the address starts with '/' and every character is valid in an address |
| OscCore.OscParser.GetAddressType | src/BuildSoft.OscCore/OscParser.cs:123-161 | Invalid without '/'; Address exactly for valid addresses; Pattern exactly when a wildcard or bracket occurs and no space, '#' or ',' |
| OscParserFacts.Zeros | src/BuildSoft.OscCore/OscParser.cs:54-57 | n NUL bytes |
| OscParserFacts.OscString | src/BuildSoft.OscCore/OscParser.cs:53-57 | an OSC-string: the bytes, then 1 to 4 NULs up to a multiple of 4 |
| OscParserFacts.FirstNulAt | src/BuildSoft.OscCore/OscParser.cs:191-195 | the NUL that ends a NUL-free run is the first NUL |
| OscParserFacts.AddressRoundTrip | src/BuildSoft.OscCore/OscParser.cs:199-213 | an address of two or more bytes written as an OSC-string anywhere scans to its own length, and its aligned length is the OSC-string's length |
| OscParserFacts.RootAddressAsWritten | src/BuildSoft.OscCore/OscParser.cs:190-196 | the root address "/" scans to length 2 |
| OscParserFacts.CorrectedAddressLength | src/BuildSoft.OscCore/OscParser.cs:199-213 | the address scan from the byte after '/': -1 without '/', otherwise the distance to the first NUL |
| OscParserFacts.CorrectedAddressRoundTrip | src/BuildSoft.OscCore/OscParser.cs:199-213 | every address, the root included, scans to its own length with the corrected scan |
| OscParserFacts.CorrectedAgreesPastRoot | src/BuildSoft.OscCore/OscParser.cs:199-213 | both scans agree whenever a non-NUL byte follows the '/' |
| OscParserFacts.AlignedIsRoundUp | src/BuildSoft.OscCore/OscParser.cs:53-60 | the address padding rule equals rounding n+1 up to 4 |
| OscParserFacts.OscStringLaidOut | src/BuildSoft.OscCore/OscParser.cs:53-57 | where an OSC-string's bytes and its first NUL land in a buffer |
| OscParserFacts.TagScanOfLaidOutTags | src/BuildSoft.OscCore/OscParser.cs:164-183 | a ',' followed by up to 32 supported tags and a NUL scans to exactly those tags |
| OscParserFacts.TagScanRoundTrip | src/BuildSoft.OscCore/OscParser.cs:164-183 | a tag string written as an OSC-string scans to its tags, and from an aligned start the values begin right behind its padding |
| OscParserFacts.MessageHeaderRoundTrip | src/BuildSoft.OscCore/OscParser.cs:45-63 | for an address and tag string laid out by OSC 1.0: the address length, the tags, and the start of the values |
| OscParserFacts.PingExample | src/BuildSoft.OscCore/OscParser.cs:45-63 | "/ping" with "," scans to address length 5 and no elements |
| OscParserFacts.TempoExample | src/BuildSoft.OscCore/OscParser.cs:45-63 | "/composition/tempo" with ",f" scans to address length 18, one Float32, values at byte 24 |
| OscParserFacts.ValuesStartFromUnalignedStart | src/BuildSoft.OscCore/OscParser.cs:85 | from an odd start the values start falls short of the padded tag string (8 instead of 9) |
| OscParserFacts.Wrap32KeepsAlignment | src/BuildSoft.OscCore/OscParser.cs:245-258 | a 32-bit wrap-around keeps the value modulo 4 |
| OscParserFacts.AlignedStep | src/BuildSoft.OscCore/OscParser.cs:245-258 | an aligned offset advanced by a multiple of 4 stays aligned after wrapping |
| OscParserFacts.ElementSizeKeepsAlignment | src/BuildSoft.OscCore/OscParser.cs:237-260 | every advance is a multiple of 4, except a blob whose size is not |
| OscParserFacts.StepKeepsAlignment | src/BuildSoft.OscCore/OscParser.cs:236-259 | one element's advance keeps an aligned offset aligned unless it is a blob whose size is not a multiple of 4 |
| OscParserFacts.OffsetsStayAligned | src/BuildSoft.OscCore/OscParser.cs:230-262 | from an aligned start every element offset is aligned, while each blob's size is a multiple of 4 |
| OscParserFacts.NoBlobsKeepAlignment | src/BuildSoft.OscCore/OscParser.cs:256-259 | without blobs the blob condition holds for every prefix |
| OscParserFacts.WithoutBlobsOffsetsAligned | src/BuildSoft.OscCore/OscParser.cs:230-262 | a message without blobs has every element offset aligned |
| OscParserFacts.BlobPaddingIgnored | src/BuildSoft.OscCore/OscParser.cs:256-259 | after a one-byte blob the next offset is 5 on a big-endian host and 4 + 2^24 on a little-endian one |
| OscParserFacts.CorrectedBlobLength | src/BuildSoft.OscCore/OscParser.cs:256-259 | the blob advance as OSC 1.0 writes blobs: a big-endian size, plus 4, padded to a multiple of 4 |
| OscParserFacts.OscBlob | src/BuildSoft.OscCore/OscParser.cs:256-259 | an OSC-blob: a big-endian size, the bytes, NUL padding to a multiple of 4 |
| OscParserFacts.CorrectedBlobRoundTrip | src/BuildSoft.OscCore/OscParser.cs:256-259 | the corrected advance steps over exactly one encoded blob |
| OscParserFacts.StringLengthAsWritten | src/BuildSoft.OscCore/OscParser.cs:215-226 | the OSC-string "ab" is reported as 0 bytes long |
| OscParserFacts.CorrectedStringLength | src/BuildSoft.OscCore/OscParser.cs:215-226 | the string advance up to the first NUL, padded to a positive multiple of 4 |
| OscParserFacts.CorrectedStringRoundTrip | src/BuildSoft.OscCore/OscParser.cs:215-226 | the corrected string length steps over exactly one encoded OSC-string |
| BlobHandles.Ptr.View | src/BuildSoft.OscCore/Dependencies/BlobHandles/Runtime/Structs/BlobHandle.cs:14-27 | the `count` bytes from a pointer, empty for a count of 0 or less |
| BlobHandles.BlobHandle.Pointer | src/BuildSoft.OscCore/Dependencies/BlobHandles/Runtime/Structs/BlobHandle.cs:14-27 | the raw pointer when there is one; otherwise `&bytes[offset]`, which exists exactly when the offset indexes the array |
| BlobHandles.BlobHandle.ByteAt | src/BuildSoft.OscCore/Dependencies/BlobHandles/Runtime/Structs/BlobHandle.cs:14-27 | byte i of the view is `pointer[i]`, or `bytes[offset + i]` |
| BlobHandles.BlobHandle.Contents | src/BuildSoft.OscCore/Dependencies/BlobHandles/Runtime/Structs/BlobHandle.cs:14-34 | the Length viewed bytes, byte by byte |
| BlobHandles.BlobHandle.GetHashCode | src/BuildSoft.OscCore/Dependencies/BlobHandles/Runtime/Structs/BlobHandle.cs:88-94 | an int32 that agrees with `Length * 397` (wrapped) above the lowest 8 bits; the lowest 8 bits are the product's low byte XOR the last viewed byte |
| BlobHandles.BlobHandle.Equals | src/BuildSoft.OscCore/Dependencies/BlobHandles/Runtime/Structs/BlobHandle.cs:97-101 | true exactly when the lengths are equal |
| BlobHandles.BlobHandle.EqualsObject | src/BuildSoft.OscCore/Dependencies/BlobHandles/Runtime/Structs/BlobHandle.cs:103-106 | true exactly when the object is a handle of the same length |
| BlobHandles.BlobHandle.ContentEquals | src/BuildSoft.OscCore/Dependencies/BlobHandles/Runtime/Structs/BlobHandle.cs:97-101 | the intended equality: equal lengths and equal viewed bytes |
| BlobHandles.XorByte | src/BuildSoft.OscCore/Dependencies/BlobHandles/Runtime/Structs/BlobHandle.cs:92 | XOR of an int with a byte keeps the int32 range and all bits above the lowest 8; the low byte becomes the XOR of the two bytes |
| BlobHandles.XorBits | src/BuildSoft.OscCore/Dependencies/BlobHandles/Runtime/Structs/BlobHandle.cs:92 | the XOR of the lowest n bits of two numbers is below 2^n |
| BlobHandles.XorBitsZero | src/BuildSoft.OscCore/Dependencies/BlobHandles/Runtime/Structs/BlobHandle.cs:92 | XOR with 0 gives back any n-bit value |
| BlobHandles.XorBitsCancel | src/BuildSoft.OscCore/Dependencies/BlobHandles/Runtime/Structs/BlobHandle.cs:92 | XOR with the same value twice gives back any n-bit value |
| BlobHandles.XorBitsCommutes | src/BuildSoft.OscCore/Dependencies/BlobHandles/Runtime/Structs/BlobHandle.cs:92 | the bitwise XOR is symmetric |
| BlobHandles.XorByteCancel | src/BuildSoft.OscCore/Dependencies/BlobHandles/Runtime/Structs/BlobHandle.cs:92 | applying `^ b` twice gives back the int |
| BlobHandles.HashOf | src/BuildSoft.OscCore/Dependencies/BlobHandles/Runtime/Structs/BlobHandle.cs:88-94 | `Length * 397 ^ lastByte`: the high bits of the wrapped product, and the product's low byte XOR the last byte below them |
| BlobHandles.HashOfSeparatesLastBytes | src/BuildSoft.OscCore/Dependencies/BlobHandles/Runtime/Structs/BlobHandle.cs:88-94 | for one length, two last bytes give the same hash only when they are the same byte |
| BlobHandles.FromPointer | src/BuildSoft.OscCore/Dependencies/BlobHandles/Runtime/Structs/BlobHandle.cs:36-46 | Length is the given length; byte i is `pointer[i]` wherever that is readable |
| BlobHandles.FromArray | src/BuildSoft.OscCore/Dependencies/BlobHandles/Runtime/Structs/BlobHandle.cs:52-56 | Length is the array length, and the viewed bytes are the array (which needs at least one byte) |
| BlobHandles.FromArrayLength | src/BuildSoft.OscCore/Dependencies/BlobHandles/Runtime/Structs/BlobHandle.cs:63-67 | Length is the given length, not checked; byte i is `bytes[i]` |
| BlobHandles.FromArraySlice | src/BuildSoft.OscCore/Dependencies/BlobHandles/Runtime/Structs/BlobHandle.cs:75-80 | Length is the given length; the pointer exists exactly when the offset indexes the array; byte i is `bytes[offset + i]` |
| BlobHandles.OpEquality | src/BuildSoft.OscCore/Dependencies/BlobHandles/Runtime/Structs/BlobHandle.cs:108-112 | true exactly when the lengths are equal |
| BlobHandles.OpInequality | src/BuildSoft.OscCore/Dependencies/BlobHandles/Runtime/Structs/BlobHandle.cs:114-118 | exactly the negation of `==` |
| BlobHandles.Compare | src/BuildSoft.OscCore/Dependencies/BlobHandles/Runtime/Structs/BlobHandle.cs:120-132 | 0 or 1, and 0 exactly when the first `count` bytes at both pointers agree |
| BlobHandles.MemoryCompare | src/BuildSoft.OscCore/Dependencies/BlobHandles/Runtime/Structs/BlobHandle.cs:120-132 | as written: compares ptr1 with itself and returns 0 |
| BlobHandles.MemoryCompareCorrected | src/BuildSoft.OscCore/Dependencies/BlobHandles/Runtime/Structs/BlobHandle.cs:120-132 | compares ptr1 with ptr2: 0 exactly when the bytes agree, otherwise 1 |
| BlobHandles.EqualsIgnoresContent | src/BuildSoft.OscCore/Dependencies/BlobHandles/Runtime/Structs/BlobHandle.cs:88-132 | for any two distinct bytes x and y, the handles on [x] and [y] are equal under `Equals` and `==`, differ in content, and hash differently |
| BlobHandles.OneByteHandleHash | src/BuildSoft.OscCore/Dependencies/BlobHandles/Runtime/Structs/BlobHandle.cs:88-94 | the handle on a one-byte array [b] hashes to 256 plus 141 XOR b, the low byte of 397 being 141 |
| BlobHandles.HashOfByteOne | src/BuildSoft.OscCore/Dependencies/BlobHandles/Runtime/Structs/BlobHandle.cs:88-94 | the handle on the array [1] hashes to 397 ^ 1 = 396 |
| BlobHandles.HashOfByteTwo | src/BuildSoft.OscCore/Dependencies/BlobHandles/Runtime/Structs/BlobHandle.cs:88-94 | the handle on the array [2] hashes to 397 ^ 2 = 399 |
| BlobHandles.HashByLengthAndLastByte | src/BuildSoft.OscCore/Dependencies/BlobHandles/Runtime/Structs/BlobHandle.cs:88-94 | handles with the same length and last byte hash alike |
| BlobHandles.ContentEqualHandlesHashAlike | src/BuildSoft.OscCore/Dependencies/BlobHandles/Runtime/Structs/BlobHandle.cs:88-101 | content-equal handles have equal hashes |
| BlobHandles.ContentEqualsIsEquivalence | src/BuildSoft.OscCore/Dependencies/BlobHandles/Runtime/Structs/BlobHandle.cs:97-101 | content equality is reflexive, symmetric and transitive |
| BlobHandles.ContentEqualImpliesEqual | src/BuildSoft.OscCore/Dependencies/BlobHandles/Runtime/Structs/BlobHandle.cs:97-118 | content-equal handles are equal under `Equals` and `==`, and not under `!=` |
| BlobHandles.EmptyArrayHasNoPointer | src/BuildSoft.OscCore/Dependencies/BlobHandles/Runtime/Structs/BlobHandle.cs:22-24 | a handle on an empty array has no pointer, so it cannot even be compared with itself |
| BlobStrings.BlobString.constructor | src/BuildSoft.OscCore/Dependencies/BlobHandles/Runtime/Structs/BlobString.cs:27-40 | fresh pinned bytes equal to the encoding of the source; the handle views exactly those bytes with their count as Length |
| BlobStrings.BlobString.FromPointer | src/BuildSoft.OscCore/Dependencies/BlobHandles/Runtime/Structs/BlobString.cs:42-47 | a pointer handle of the given length, no own bytes, nothing pinned |
| BlobStrings.BlobString.Length | src/BuildSoft.OscCore/Dependencies/BlobHandles/Runtime/Structs/BlobString.cs:25 | the encoded byte count (the handle's Length) for an encoded string, 0 for one made from a pointer |
| BlobStrings.BlobString.GetHashCode | src/BuildSoft.OscCore/Dependencies/BlobHandles/Runtime/Structs/BlobString.cs:54-58 | the handle's hash; for an encoded string, the hash of its byte count and last encoded byte |
| BlobStrings.BlobString.Equals | src/BuildSoft.OscCore/Dependencies/BlobHandles/Runtime/Structs/BlobString.cs:60-64 | the handles' `Equals`, so true exactly when the handle lengths agree |
| BlobStrings.BlobString.EqualsObject | src/BuildSoft.OscCore/Dependencies/BlobHandles/Runtime/Structs/BlobString.cs:66-69 | true exactly for a BlobString whose handle has the same length |
| BlobStrings.BlobString.Dispose | src/BuildSoft.OscCore/Dependencies/BlobHandles/Runtime/Structs/BlobString.cs:81-87 | frees the pinning handle on every call for an encoded string and never for one made from a pointer |
| BlobStrings.BlobString.DisposeCorrected | src/BuildSoft.OscCore/Dependencies/BlobHandles/Runtime/Structs/BlobString.cs:81-87 | frees only while the runtime still holds the handle, so it is freed at most once |
| BlobStrings.OpEquality | src/BuildSoft.OscCore/Dependencies/BlobHandles/Runtime/Structs/BlobString.cs:71-74 | the handles' `==`, the same as `Equals` |
| BlobStrings.OpInequality | src/BuildSoft.OscCore/Dependencies/BlobHandles/Runtime/Structs/BlobString.cs:76-79 | exactly the negation of `==` |
| BlobStrings.EncodedStringsEqualByLength | src/BuildSoft.OscCore/Dependencies/BlobHandles/Runtime/Structs/BlobString.cs:27-40 | two encoded strings are equal exactly when their encodings have the same length |
| BlobStrings.DisposeTwice | src/BuildSoft.OscCore/Dependencies/BlobHandles/Runtime/Structs/BlobString.cs:81-87 | disposing an encoded string twice frees its pinning handle twice |
| BlobStrings.DisposeTwiceCorrected | src/BuildSoft.OscCore/Dependencies/BlobHandles/Runtime/Structs/BlobString.cs:81-87 | with the corrected dispose, two calls free it once |

## Left out

- Sockets, the receive loop, threads, the clients and the forwarder are not part of this model. They are I/O and concurrency.
- `OscMessageValues`, `OscWriter`, `OscServer`, `TypeTag` and `Constant` are not part of this model. Only the table fields the parser writes are modelled: tags, offsets and the element count. The count starts at 0.
- The `TypeTag` extension `IsSupported` is not part of this model. `OscTypes.IsSupported` takes the OSC 1.0 tag alphabet `i f s b h d t m r c T F N I [ ]` plus `S`.
- `IsBundleTagAtIndex` is left out: it compares a host-order 8-byte read with a constant that is not part of this model.
- `MaxBlobSize` is left out: the parser declares it but never reads it.
- The encoding is a function parameter of the string constructor. `Encoding.GetBytes`, `GetString` and the settable static `Encoding` are library calls.
- `BlobString.ToString` and `BlobHandle.ToString` are left out: they format text and memory addresses.
- `BlobHandleExtensionMethods.cs` is left out: it only wraps a handle in a span.
- Test helpers are left out.
- Pointers are a byte sequence plus an index, taken as a value when the handle is made. The model does not capture:
  - aliasing, that is, later writes to the array or memory a handle views;
  - GC pinning and pointer lifetimes;
  - null pointers and `default(BlobHandle)`, which would throw NullReferenceException.
- BlobString is a class, so the model does not capture copies of the C# struct sharing one pinning handle.
- Host byte order is a constructor parameter of the parser (`littleEndian`) rather than a property of the machine.
- Reads that leave the array in the source are preconditions, because they throw IndexOutOfRangeException or read unchecked memory. The model does not describe the exception. The cases are:
  - `OscCore.OscParser.FindUnalignedAddressLength`, `OscCore.OscParser.FindUnalignedAddressLengthFrom`: an address with no NUL after it (`AddressScannable`).
  - `OscCore.OscParser.ParseTags`: a tag string with more than 32 supported tags. The source throws at the 33rd, because the table has no capacity check (`TagsScannable`).
  - `OscCore.OscParser.FindOffsets`: a blob whose 4-byte size lies outside the buffer, or a string at a negative offset (`Readable`).
  - `OscCore.OscParser.FindArrayLength`: a '[' with no ']' after it.
  - `OscCore.OscParser.AddressIsValid`, `OscCore.OscParser.GetAddressType`: an empty address.
  - `BlobHandles.BlobHandle.GetHashCode`, `BlobHandles.BlobHandle.Equals`: a view that cannot be read (`Hashable`, `ComparableWith`).
  - `OscCore.OscParser.constructor`: a capacity above the largest array length, where `new byte[capacity]` throws OutOfMemoryException or OverflowException.
- `OscCore.OscParser.ElementLength` is not a separate method in the source. It is the `switch` inside FindOffsets, written as a method of its own.
- `OscCore.OscParser.ParseElements` is not a separate method in the source either. It holds the steps the two Parse overloads share.
- The `(UIntPtr)Length` / `(int)count` conversion in `Equals` is modelled as the identity, as it is for int32 lengths on a 64-bit host.

## Findings

| source | as written | input that shows it | evidently intended | confidence | as-written member | corrected member |
|---|---|---|---|---|---|---|
| src/BuildSoft.OscCore/Dependencies/BlobHandles/Runtime/Structs/BlobHandle.cs:123 | `p2` is taken from `ptr1`, so MemoryCompare compares a blob with itself and always returns 0; `Equals`, `==` and `!=` compare lengths only | handles on the arrays [1] and [2]: equal, though their hashes are 396 and 399 (`BlobHandles.HashOfByteOne`, `BlobHandles.HashOfByteTwo`); the same holds for any two distinct bytes | `p2 = (byte*)ptr2`: equal exactly when the bytes agree, so equal handles hash alike | high, not executed | BlobHandles.EqualsIgnoresContent | BlobHandles.MemoryCompareCorrected |
| src/BuildSoft.OscCore/OscParser.cs:219-221 | the string scan stops at the first non-zero byte, so it measures the zero bytes from the offset and not the string; its bound is the index `Length - offset` | the OSC-string "ab" (bytes a b 0 0) is reported as 0 bytes long | the bytes up to the first NUL, plus the NUL, padded to 4 (4 for "ab") | high, not executed | OscParserFacts.StringLengthAsWritten | OscParserFacts.CorrectedStringLength |
| src/BuildSoft.OscCore/OscParser.cs:258 | the blob size is read in host byte order | on a little-endian host a one-byte blob (size bytes 0 0 0 1) advances by 4 + 2^24 | OSC 1.0 sizes are big-endian: advance by 4 + 1, padded | high, not executed | OscParserFacts.BlobPaddingIgnored | OscParserFacts.CorrectedBlobLength |
| src/BuildSoft.OscCore/OscParser.cs:258 | the advance past a blob skips no padding | a one-byte blob then an int32: the int's offset is 5, inside the blob's padding | the int starts at 8 | high, not executed | OscParserFacts.BlobPaddingIgnored | OscParserFacts.CorrectedBlobRoundTrip |
| src/BuildSoft.OscCore/OscParser.cs:190-195 | the address scan never looks at the byte after '/' | the root address "/" (bytes / 0 0 0) gets length 2, which includes a NUL | length 1 | medium, not executed | OscParserFacts.RootAddressAsWritten | OscParserFacts.CorrectedAddressRoundTrip |
| src/BuildSoft.OscCore/Dependencies/BlobHandles/Runtime/Structs/BlobString.cs:83-85 | `Free` on a field of a readonly struct acts on a defensive copy, so `IsAllocated` stays true | disposing an encoded string twice frees its pinning handle twice | the second Dispose does nothing | medium, not executed | BlobStrings.DisposeTwice | BlobStrings.DisposeTwiceCorrected |
