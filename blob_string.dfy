/** A string held as a pinned array of its encoded bytes, compared and hashed
    through a BlobHandle over those bytes. */
module BlobStrings {
  import opened OscTypes
  import opened BlobHandles

  class BlobString {
    /** `_bytes`: the encoded string, or empty for a string made from a pointer. */
    const bytes: array<byte>
    /** `_byteHandle.IsAllocated`, as the struct's own copy of the pinning handle
        reports it. `Dispose` frees through a copy of that handle, so this never changes. */
    const pinned: bool
    const Handle: BlobHandle
    /** The encoded bytes the string constructor wrote. */
    ghost const encoded: seq<byte>

    /** How many times the runtime has been asked to free the pinning handle. */
    var frees: nat
    /** The handle's `IsAllocated` as the corrected dispose tracks it: true for a
        fresh encoded string and cleared only by `DisposeCorrected`. The
        as-written `Dispose` frees through a copy and leaves it as it was. */
    var live: bool

    ghost predicate Valid()
      reads this, bytes
    {
      && IsInt32(Handle.Length)
      && (pinned ==> bytes[..] == encoded && |encoded| < TwoTo31 && Handle == BlobHandles.FromPointer(Ptr(encoded, 0), |encoded|))
      && (!pinned ==> bytes.Length == 0)
    }

    /** `BlobString(string)`: encodes `source` into a fresh pinned array, and
        views the pinned bytes through a raw-pointer handle. */
    constructor (source: string, encode: string -> seq<byte>)
      requires |encode(source)| < TwoTo31
      ensures Valid() && pinned && live && frees == 0
      ensures encoded == encode(source) && fresh(bytes)
    {
      var e := encode(source);
      var byteCount := |e|;
      var a := new byte[byteCount];
      for i := 0 to byteCount
        invariant a[..i] == e[..i]
      {
        a[i] := e[i];
      }
      bytes := a;
      pinned := true;
      live := true;
      encoded := e;
      Handle := BlobHandles.FromPointer(Ptr(e, 0), byteCount);
      frees := 0;
      new;
      assert bytes[..] == a[..byteCount];
    }

    /** `BlobString(byte*, int)`: a handle on foreign memory, no bytes of its
        own and a default (unallocated) pinning handle. */
    constructor FromPointer(source: Ptr, length: int)
      requires IsInt32(length)
      ensures Valid() && !pinned && !live && frees == 0
      ensures Handle == BlobHandles.FromPointer(source, length) && bytes.Length == 0
    {
      bytes := new byte[0];
      pinned := false;
      live := false;
      encoded := [];
      Handle := BlobHandles.FromPointer(source, length);
      frees := 0;
    }

    /** `Length`: the length of the own bytes, which is the handle's length for
        an encoded string and 0 for one made from a pointer. */
    function Length(): (n: int)
      reads this, bytes
      ensures Valid() && pinned ==> n == Handle.Length == |encoded|
      ensures Valid() && !pinned ==> n == 0
    {
      bytes.Length
    }

    /** `GetHashCode`: the handle's hash. For an encoded string, the hash of its
        byte count and last encoded byte. */
    function GetHashCode(): (r: int)
      requires IsInt32(Handle.Length) && Handle.Hashable()
      reads this, bytes
      ensures IsInt32(r) && r == Handle.GetHashCode()
      ensures Valid() && pinned ==> |encoded| >= 1 && r == HashOf(|encoded|, encoded[|encoded| - 1])
    {
      Handle.GetHashCode()
    }

    /** `Equals(BlobString)`: the handles compare equal, which as written means
        equal handle lengths. */
    function Equals(other: BlobString): (r: bool)
      requires Handle.ComparableWith(other.Handle)
      ensures r <==> Handle.Length == other.Handle.Length
      ensures r == Handle.Equals(other.Handle)
    {
      Handle.Equals(other.Handle)
    }

    /** `Equals(object)`: true only for another BlobString whose handle equals this one's. */
    function EqualsObject(obj: object?): (r: bool)
      requires obj is BlobString ==> Handle.ComparableWith((obj as BlobString).Handle)
      ensures r <==> obj is BlobString && Handle.Length == (obj as BlobString).Handle.Length
    {
      obj is BlobString && Handle.Equals((obj as BlobString).Handle)
    }

    /** `Dispose`: frees the pinning handle whenever the struct's copy reports it
        allocated, which is on every call for an encoded string. */
    method Dispose()
      modifies this
      ensures frees == old(frees) + (if pinned then 1 else 0)
      ensures live == old(live)
    {
      if pinned {
        frees := frees + 1;
      }
    }

    /** The pinning handle is released at most once over the string's life. */
    ghost predicate ReleasedOnce()
      reads this
    {
      frees + (if live then 1 else 0) == (if pinned then 1 else 0)
    }

    /** `Dispose` guarded by the runtime's own allocation state. */
    method DisposeCorrected()
      modifies this
      requires ReleasedOnce()
      ensures ReleasedOnce() && !live && frees <= 1
      ensures frees == old(frees) + (if old(live) then 1 else 0)
    {
      if live {
        frees := frees + 1;
        live := false;
      }
    }
  }

  /** `operator ==` on two strings: the handles' `==`. */
  function OpEquality(l: BlobString, r: BlobString): (b: bool)
    requires l.Handle.ComparableWith(r.Handle)
    ensures b <==> l.Handle.Length == r.Handle.Length
    ensures b == l.Equals(r)
  {
    BlobHandles.OpEquality(l.Handle, r.Handle)
  }

  /** `operator !=` on two strings: the handles' `!=`. */
  function OpInequality(l: BlobString, r: BlobString): (b: bool)
    requires l.Handle.ComparableWith(r.Handle)
    ensures b <==> !OpEquality(l, r)
  {
    BlobHandles.OpInequality(l.Handle, r.Handle)
  }

  /** Two encoded strings compare equal exactly when their encodings have the same length. */
  lemma EncodedStringsEqualByLength(a: BlobString, b: BlobString)
    requires a.Valid() && b.Valid() && a.pinned && b.pinned
    ensures a.Handle.ComparableWith(b.Handle)
    ensures a.Equals(b) <==> |a.encoded| == |b.encoded|
  {
  }

  /** Disposing an encoded string twice asks the runtime to free its pinning handle twice. */
  method DisposeTwice(source: string, encode: string -> seq<byte>) returns (s: BlobString)
    requires |encode(source)| < TwoTo31
    ensures s.frees == 2
  {
    s := new BlobString(source, encode);
    s.Dispose();
    s.Dispose();
  }

  /** With the corrected dispose, the second call changes nothing. */
  method DisposeTwiceCorrected(source: string, encode: string -> seq<byte>) returns (s: BlobString)
    requires |encode(source)| < TwoTo31
    ensures s.frees == 1
  {
    s := new BlobString(source, encode);
    s.DisposeCorrected();
    s.DisposeCorrected();
  }
}
