/** A non-owning view of Length bytes, either at a raw pointer or inside a managed
    byte array at an offset, usable as a hash key. */
module BlobHandles {
  import opened OscTypes

  datatype Option<T> = None | Some(value: T)

  /** A pointer into memory: the bytes reachable from it and its position among them. */
  datatype Ptr = Ptr(memory: seq<byte>, index: int)
  {
    predicate ReadableAt(i: int) { 0 <= index + i < |memory| }

    /** `p[i]` */
    function At(i: int): byte
      requires ReadableAt(i)
    {
      memory[index + i]
    }

    /** The first `count` bytes can be read (nothing is read when count <= 0). */
    predicate Readable(count: int) { count <= 0 || (0 <= index && index + count <= |memory|) }

    /** The `count` bytes from this pointer on. */
    function View(count: int): (r: seq<byte>)
      requires Readable(count)
      ensures |r| == if count <= 0 then 0 else count
      ensures forall i :: 0 <= i < |r| ==> ReadableAt(i) && r[i] == At(i)
    {
      if count <= 0 then [] else memory[index .. index + count]
    }
  }

  datatype Origin = Unmanaged(pointer: Ptr) | Managed(bytes: seq<byte>, offset: int)

  datatype BlobHandle = BlobHandle(origin: Origin, Length: int)
  {
    /** The `Pointer` property: the raw pointer, or the address of `bytes[offset]`,
        which throws (None) when the offset is not an index of the array. */
    function Pointer(): (r: Option<Ptr>)
      ensures origin.Unmanaged? ==> r == Some(origin.pointer)
      ensures origin.Managed? ==>
        (r.Some? <==> 0 <= origin.offset < |origin.bytes|) &&
        (r.Some? ==> forall i :: r.value.ReadableAt(i) <==> 0 <= origin.offset + i < |origin.bytes|)
    {
      match origin
      case Unmanaged(p) => Some(p)
      case Managed(bytes, offset) => if 0 <= offset < |bytes| then Some(Ptr(bytes, offset)) else None
    }

    /** Byte i of the view exists. */
    predicate HasByte(i: int) { Pointer().Some? && Pointer().value.ReadableAt(i) }

    /** Byte i of the view. */
    function ByteAt(i: int): (b: byte)
      requires HasByte(i)
      ensures origin.Unmanaged? ==> b == origin.pointer.At(i)
      ensures origin.Managed? ==> b == origin.bytes[origin.offset + i]
    {
      Pointer().value.At(i)
    }

    /** All Length bytes of the view exist. */
    predicate Viewable() { Pointer().Some? && Pointer().value.Readable(Length) }

    /** The bytes the handle stands for. */
    function Contents(): (r: seq<byte>)
      requires Viewable()
      ensures |r| == if Length <= 0 then 0 else Length
      ensures forall i :: 0 <= i < |r| ==> HasByte(i) && r[i] == ByteAt(i)
    {
      Pointer().value.View(Length)
    }

    /** The hash reads the last byte of the view, `Pointer[Length - 1]`. */
    predicate Hashable() { HasByte(Length - 1) }

    /** `Length * 397 ^ Pointer[Length - 1]` in unchecked 32-bit arithmetic: the
        XOR with a byte leaves every bit above the lowest eight of the product,
        and the lowest eight are the product's low byte XOR the last byte. */
    function GetHashCode(): (r: int)
      requires IsInt32(Length) && Hashable()
      ensures IsInt32(r)
      ensures r / 0x100 == Wrap32(Length * 397) / 0x100
      ensures r % 0x100 == XorBits(Wrap32(Length * 397) % 0x100, ByteAt(Length - 1) as nat, 8)
    {
      HashOf(Length, ByteAt(Length - 1))
    }

    /** What `Equals`, `==` and `!=` read: when the lengths agree, both pointers
        are taken and the first `Length` bytes at this handle's pointer are read. */
    predicate ComparableWith(other: BlobHandle)
    {
      Length == other.Length ==> Viewable() && other.Pointer().Some?
    }

    /** `Equals(BlobHandle)`: equal lengths and a zero MemoryCompare, which as
        written compares this handle's bytes with themselves. */
    function Equals(other: BlobHandle): (r: bool)
      requires ComparableWith(other)
      ensures r <==> Length == other.Length
    {
      Length == other.Length && Compare(Pointer().value, Pointer().value, Length) == 0
    }

    /** `Equals(object)`: None stands for null or an object of another type. */
    function EqualsObject(obj: Option<BlobHandle>): (r: bool)
      requires obj.Some? ==> ComparableWith(obj.value)
      ensures r <==> obj.Some? && Length == obj.value.Length
    {
      obj.Some? && Equals(obj.value)
    }

    /** Equality with the byte comparison the hash contract calls for. */
    function ContentEquals(other: BlobHandle): (r: bool)
      requires Viewable() && other.Viewable()
      ensures r <==> Length == other.Length && Contents() == other.Contents()
    {
      Length == other.Length && Compare(Pointer().value, other.Pointer().value, Length) == 0
    }
  }

  function Pow2(n: nat): (r: nat)
    ensures r >= 1
  {
    if n == 0 then 1 else 2 * Pow2(n - 1)
  }

  /** The exclusive or of the lowest n bits of a and b. */
  function XorBits(a: nat, b: nat, n: nat): (r: nat)
    ensures r < Pow2(n)
  {
    if n == 0 then 0 else (if a % 2 == b % 2 then 0 else 1) + 2 * XorBits(a / 2, b / 2, n - 1)
  }

  /** `x ^ b` for an `int` x and a byte b: b only meets the lowest eight bits of x. */
  function XorByte(x: int, b: byte): (r: int)
    requires IsInt32(x)
    ensures IsInt32(r)
    ensures r / 0x100 == x / 0x100
    ensures r % 0x100 == XorBits(x % 0x100, b as nat, 8)
  {
    var low := x % 0x100;
    assert Pow2(8) == 0x100;
    var mixed := XorBits(low, b as nat, 8);
    ReplaceLowByte(x, mixed);
    x - low + mixed
  }

  /** Replacing the lowest byte of x keeps the bits above it and the int32 range. */
  lemma ReplaceLowByte(x: int, l: int)
    requires IsInt32(x) && 0 <= l < 0x100
    ensures var r := x - x % 0x100 + l;
      IsInt32(r) && r / 0x100 == x / 0x100 && r % 0x100 == l
  {
    var q := x / 0x100;
    assert x - x % 0x100 == 0x100 * q;
  }

  /** `length * 397 ^ last` with the product wrapped to 32 bits. */
  function HashOf(length: int, last: byte): (r: int)
    requires IsInt32(length)
    ensures IsInt32(r)
    ensures r / 0x100 == Wrap32(length * 397) / 0x100
    ensures r % 0x100 == XorBits(Wrap32(length * 397) % 0x100, last as nat, 8)
  {
    XorByte(Wrap32(length * 397), last)
  }

  /** XOR with a twice gives back b. */
  lemma {:induction false} XorBitsCancel(a: nat, b: nat, n: nat)
    requires b < Pow2(n)
    ensures XorBits(a, XorBits(a, b, n), n) == b
  {
    if n > 0 {
      var r := XorBits(a, b, n);
      var rest := XorBits(a / 2, b / 2, n - 1);
      assert r == (if a % 2 == b % 2 then 0 else 1) + 2 * rest;
      assert r % 2 == (if a % 2 == b % 2 then 0 else 1) && r / 2 == rest;
      XorBitsCancel(a / 2, b / 2, n - 1);
      assert XorBits(a, r, n) == (if a % 2 == r % 2 then 0 else 1) + 2 * XorBits(a / 2, r / 2, n - 1);
    }
  }

  /** Applying `^ b` twice restores the int. */
  lemma XorByteCancel(x: int, b: byte)
    requires IsInt32(x)
    ensures XorByte(XorByte(x, b), b) == x
  {
    assert Pow2(8) == 0x100;
    var y := XorByte(x, b);
    var low := x % 0x100;
    assert y % 0x100 == XorBits(low, b as nat, 8) && y / 0x100 == x / 0x100;
    XorBitsCommutes(low, b as nat, 8);
    XorBitsCommutes(y % 0x100, b as nat, 8);
    XorBitsCancel(b as nat, low, 8);
    assert XorBits(y % 0x100, b as nat, 8) == low;
  }

  /** XOR with 0 leaves an n-bit value as it is. */
  lemma {:induction false} XorBitsZero(a: nat, n: nat)
    requires a < Pow2(n)
    ensures XorBits(a, 0, n) == a
  {
    if n > 0 {
      XorBitsZero(a / 2, n - 1);
    }
  }

  lemma {:induction false} XorBitsCommutes(a: nat, b: nat, n: nat)
    ensures XorBits(a, b, n) == XorBits(b, a, n)
  {
    if n > 0 {
      XorBitsCommutes(a / 2, b / 2, n - 1);
    }
  }

  /** For one length, distinct last bytes give distinct hashes. */
  lemma HashOfSeparatesLastBytes(length: int, x: byte, y: byte)
    requires IsInt32(length) && HashOf(length, x) == HashOf(length, y)
    ensures x == y
  {
    assert Pow2(8) == 0x100;
    var w := Wrap32(length * 397) % 0x100;
    var hx, hy := XorBits(w, x as nat, 8), XorBits(w, y as nat, 8);
    assert hx == HashOf(length, x) % 0x100 == HashOf(length, y) % 0x100 == hy;
    XorBitsCancel(w, x as nat, 8);
    XorBitsCancel(w, y as nat, 8);
  }

  // ----------------------------------------------------------- constructors

  /** `BlobHandle(byte*, int)` and `BlobHandle(IntPtr, int)`. */
  function FromPointer(pointer: Ptr, length: int): (h: BlobHandle)
    requires IsInt32(length)
    ensures h.Length == length
    ensures forall i :: h.HasByte(i) <==> pointer.ReadableAt(i)
    ensures forall i :: h.HasByte(i) ==> h.ByteAt(i) == pointer.At(i)
  {
    BlobHandle(Unmanaged(pointer), length)
  }

  /** `BlobHandle(byte[])`: the whole array. */
  function FromArray(bytes: seq<byte>): (h: BlobHandle)
    requires |bytes| < TwoTo31
    ensures h.Length == |bytes|
    ensures h.Viewable() <==> |bytes| > 0
    ensures h.Viewable() ==> h.Contents() == bytes
  {
    BlobHandle(Managed(bytes, 0), |bytes|)
  }

  /** `BlobHandle(byte[], int)`: the length is not checked against the array. */
  function FromArrayLength(bytes: seq<byte>, length: int): (h: BlobHandle)
    requires |bytes| < TwoTo31 && IsInt32(length)
    ensures h.Length == length
    ensures forall i :: h.HasByte(i) <==> 0 <= i < |bytes|
    ensures forall i :: 0 <= i < |bytes| ==> h.ByteAt(i) == bytes[i]
  {
    BlobHandle(Managed(bytes, 0), length)
  }

  /** `BlobHandle(byte[], int, int)`: neither length nor offset is checked. */
  function FromArraySlice(bytes: seq<byte>, length: int, offset: int): (h: BlobHandle)
    requires |bytes| < TwoTo31 && IsInt32(length) && IsInt32(offset)
    ensures h.Length == length
    ensures h.Pointer().Some? <==> 0 <= offset < |bytes|
    ensures forall i :: h.HasByte(i) <==> 0 <= offset < |bytes| && 0 <= offset + i < |bytes|
    ensures forall i :: h.HasByte(i) ==> h.ByteAt(i) == bytes[offset + i]
  {
    BlobHandle(Managed(bytes, offset), length)
  }

  // ---------------------------------------------------------------- operators

  /** `operator ==`: the same expression as `Equals`. */
  function OpEquality(left: BlobHandle, right: BlobHandle): (r: bool)
    requires left.ComparableWith(right)
    ensures r <==> left.Length == right.Length
  {
    left.Length == right.Length && Compare(left.Pointer().value, left.Pointer().value, left.Length) == 0
  }

  /** `operator !=`. */
  function OpInequality(left: BlobHandle, right: BlobHandle): (r: bool)
    requires left.ComparableWith(right)
    ensures r <==> !OpEquality(left, right)
  {
    left.Length != right.Length || Compare(left.Pointer().value, left.Pointer().value, left.Length) != 0
  }

  // ------------------------------------------------------------ MemoryCompare

  /** 0 when the first `count` bytes at the two pointers agree, 1 otherwise. */
  function Compare(p1: Ptr, p2: Ptr, count: int): (r: int)
    requires p1.Readable(count) && p2.Readable(count)
    ensures r == 0 || r == 1
    ensures r == 0 <==> forall i :: 0 <= i < count ==> p1.At(i) == p2.At(i)
  {
    if p1.View(count) == p2.View(count) then 0 else 1
  }

  /** `MemoryCompare` as written: both byte pointers are taken from ptr1, so the
      loop compares ptr1's bytes with themselves and always returns 0. */
  method MemoryCompare(ptr1: Ptr, ptr2: Ptr, count: int) returns (r: int)
    requires ptr1.Readable(count)
    ensures r == Compare(ptr1, ptr1, count) && r == 0
  {
    var p1, p2 := ptr1, ptr1;
    var i := 0;
    while i < count
      invariant 0 <= i <= (if count < 0 then 0 else count)
    {
      if p1.At(i) != p2.At(i) {
        return 1;
      }
      i := i + 1;
    }
    return 0;
  }

  /** `MemoryCompare` comparing ptr1 with ptr2. */
  method MemoryCompareCorrected(ptr1: Ptr, ptr2: Ptr, count: int) returns (r: int)
    requires ptr1.Readable(count) && ptr2.Readable(count)
    ensures r == Compare(ptr1, ptr2, count)
  {
    var i := 0;
    while i < count
      invariant 0 <= i <= (if count < 0 then 0 else count)
      invariant forall j :: 0 <= j < i ==> ptr1.At(j) == ptr2.At(j)
    {
      if ptr1.At(i) != ptr2.At(i) {
        return 1;
      }
      i := i + 1;
    }
    return 0;
  }

  // ------------------------------------------------------------------ lemmas

  /** Handles on two different one-byte arrays compare equal under `Equals` and
      `==`, yet their bytes differ and so do their hashes: equal objects with
      unequal hash codes. */
  lemma EqualsIgnoresContent(x: byte, y: byte)
    requires x != y
    ensures var a, b := FromArray([x]), FromArray([y]);
      && a.Equals(b) && OpEquality(a, b) && !a.ContentEquals(b)
      && a.GetHashCode() != b.GetHashCode()
  {
    var a, b := FromArray([x]), FromArray([y]);
    assert a.GetHashCode() == HashOf(1, x) && b.GetHashCode() == HashOf(1, y);
    if HashOf(1, x) == HashOf(1, y) {
      HashOfSeparatesLastBytes(1, x, y);
    }
  }

  /** A handle on one byte b hashes to 256 plus 141 XOR b, 141 being the low
      byte of 397. */
  lemma OneByteHandleHash(b: byte)
    ensures FromArray([b]).GetHashCode() == 0x100 + XorBits(141, b as nat, 8)
  {
    var h := HashOf(1, b);
    assert FromArray([b]).GetHashCode() == h;
    assert Wrap32(1 * 397) == 397;
    assert h == 0x100 * (h / 0x100) + h % 0x100;
  }

  /** The handle on [1] hashes to 397 ^ 1 = 396. */
  lemma HashOfByteOne(b: byte)
    requires b == 1
    ensures FromArray([b]).GetHashCode() == 396
  {
    assert XorBits(141, b as nat, 8) == 140 by {
      XorBitsZero(70, 7);
    }
    OneByteHandleHash(b);
  }

  /** The handle on [2] hashes to 397 ^ 2 = 399. */
  lemma HashOfByteTwo(b: byte)
    requires b == 2
    ensures FromArray([b]).GetHashCode() == 399
  {
    assert XorBits(141, b as nat, 8) == 143 by {
      XorBitsZero(35, 6);
    }
    OneByteHandleHash(b);
  }

  /** The hash is a function of the length and the last byte of the view. */
  lemma HashByLengthAndLastByte(a: BlobHandle, b: BlobHandle)
    requires IsInt32(a.Length) && a.Hashable() && b.Hashable()
    requires a.Length == b.Length && a.ByteAt(a.Length - 1) == b.ByteAt(b.Length - 1)
    ensures a.GetHashCode() == b.GetHashCode()
  {
  }

  /** Handles with the same bytes hash alike, as the hash-key contract requires. */
  lemma ContentEqualHandlesHashAlike(a: BlobHandle, b: BlobHandle)
    requires IsInt32(a.Length) && a.Length >= 1 && a.Viewable() && b.Viewable()
    requires a.ContentEquals(b)
    ensures a.Hashable() && b.Hashable() && a.GetHashCode() == b.GetHashCode()
  {
  }

  /** Content equality is an equivalence. */
  lemma ContentEqualsIsEquivalence(a: BlobHandle, b: BlobHandle, c: BlobHandle)
    requires a.Viewable() && b.Viewable() && c.Viewable()
    ensures a.ContentEquals(a)
    ensures a.ContentEquals(b) ==> b.ContentEquals(a)
    ensures a.ContentEquals(b) && b.ContentEquals(c) ==> a.ContentEquals(c)
  {
  }

  /** Content-equal handles are also equal as written. */
  lemma ContentEqualImpliesEqual(a: BlobHandle, b: BlobHandle)
    requires a.Viewable() && b.Viewable() && a.ContentEquals(b)
    ensures a.Equals(b) && OpEquality(a, b) && !OpInequality(a, b)
  {
  }

  /** A handle on an array of no bytes has no pointer, so comparing it throws. */
  lemma EmptyArrayHasNoPointer()
    ensures FromArray([]).Pointer() == None && !FromArray([]).ComparableWith(FromArray([]))
  {
  }
}
