/**
 * Helpers that manage byte buffers and typed arrays in place: resizing a
 * buffer by copying, zeroing a buffer, copying a range of elements, appending
 * to an array in blocks, turning bytes into a string in blocks, and reading
 * and writing fixed-width vectors stored one after another in a flat array.
 */
module ContainerArray {
  import opened JsBits
  import opened TypedView
  import opened Wrappers

  /** One byte of an ArrayBuffer. */
  type Byte = x: int | 0 <= x < 0x100

  /** A sequence of n zero bytes. */
  function Zeros(n: nat): (z: seq<Byte>)
    ensures |z| == n && forall i :: 0 <= i < n ==> z[i] == 0
  {
    seq(n, _ => 0)
  }

  // ---- transferArrayBuffer

  /** The contents of the buffer transferArrayBuffer returns: old cut to n bytes or padded with zeros to n bytes. */
  function Transferred(prev: seq<Byte>, n: nat): seq<Byte> {
    if n < |prev| then prev[..n] else prev + Zeros(n - |prev|)
  }

  /**
   * `transferArrayBuffer`: a new buffer of newByteLength bytes holding the
   * old buffer's first bytes, zero beyond the old length. The `| 0` of the
   * source is the identity on the lengths allowed here.
   */
  method TransferArrayBuffer(oldBuffer: array<Byte>, newByteLength: int) returns (newBuffer: array<Byte>)
    requires 0 <= newByteLength < TWO_31
    ensures fresh(newBuffer)
    ensures newBuffer[..] == Transferred(oldBuffer[..], newByteLength)
  {
    ConversionsOfNonNegative(newByteLength);
    var n := ToInt32(newByteLength);
    if n < oldBuffer.Length {
      newBuffer := new Byte[n](i => 0);
      CopyInto(newBuffer, oldBuffer, n);
      assert newBuffer[..] == oldBuffer[..n];
    } else {
      newBuffer := new Byte[n](i => 0);
      CopyInto(newBuffer, oldBuffer, oldBuffer.Length);
      assert newBuffer[..] == oldBuffer[..] + Zeros(n - oldBuffer.Length);
    }
  }

  /** Copy the first count bytes of src into the zero-filled dest. */
  method CopyInto(dest: array<Byte>, src: array<Byte>, count: nat)
    requires dest != src && count <= dest.Length && count <= src.Length
    requires forall i :: 0 <= i < dest.Length ==> dest[i] == 0
    modifies dest
    ensures forall i :: 0 <= i < count ==> dest[i] == src[i]
    ensures forall i :: count <= i < dest.Length ==> dest[i] == 0
  {
    var i := 0;
    while i < count
      invariant 0 <= i <= count
      invariant forall k :: 0 <= k < i ==> dest[k] == src[k]
      invariant forall k :: i <= k < dest.Length ==> dest[k] == 0
    {
      dest[i] := src[i];
      i := i + 1;
    }
  }

  /** Shrinking keeps exactly the first n bytes. */
  lemma TransferShrinks(prev: seq<Byte>, n: nat)
    requires n < |prev|
    ensures Transferred(prev, n) == prev[..n] && |Transferred(prev, n)| == n
  {}

  /** Growing keeps every old byte and zero-fills the tail. */
  lemma TransferGrows(prev: seq<Byte>, n: nat)
    requires |prev| <= n
    ensures var r := Transferred(prev, n);
      |r| == n && r[..|prev|] == prev && forall i :: |prev| <= i < n ==> r[i] == 0
  {
    var r := Transferred(prev, n);
    assert r[..|prev|] == prev;
  }

  /** Growing and then shrinking back to the old length gives the old contents back. */
  lemma TransferRoundTrip(prev: seq<Byte>, n: nat)
    requires |prev| <= n
    ensures Transferred(Transferred(prev, n), |prev|) == prev
  {
    TransferGrows(prev, n);
    if |prev| == n {
      assert Transferred(prev, n) == prev + [];
    }
  }

  // ---- clearArrayBuffer

  /** `Float64Array.BYTES_PER_ELEMENT` */
  const FLOAT64_BYTES: nat := 8

  /**
   * `(byteLength / 8) | 0`: the number of whole doubles in the buffer. The
   * int32 conversion wraps for buffers of 2^34 bytes or more.
   */
  function NumDoubles(byteLength: nat): int {
    ToInt32(byteLength / FLOAT64_BYTES)
  }

  /** Below 2^34 bytes the whole doubles and the remaining bytes cover the buffer exactly. */
  lemma ClearCoversBuffer(byteLength: nat)
    requires byteLength < FLOAT64_BYTES * TWO_31
    ensures var numDoubles := NumDoubles(byteLength);
      var remainingBytes := byteLength - numDoubles * FLOAT64_BYTES;
      0 <= numDoubles && 0 <= remainingBytes < FLOAT64_BYTES
      && numDoubles * FLOAT64_BYTES + remainingBytes == byteLength
  {
    DivIsSmaller(byteLength, FLOAT64_BYTES);
    ConversionsOfNonNegative(byteLength / FLOAT64_BYTES);
  }

  /** A non-negative `q | 0` is q modulo 2^32, so it is at most q. */
  lemma NonNegativeInt32IsAtMost(q: nat)
    requires ToInt32(q) >= 0
    ensures ToInt32(q) <= q
  {
    DivModUnique(q, TWO_32, q / TWO_32, q % TWO_32);
  }

  /**
   * `new Float64Array(buffer)`: the number of doubles the view has, or None
   * when the constructor throws a RangeError because the buffer length is
   * not a multiple of 8.
   */
  function Float64ViewLength(byteLength: nat): (r: Option<nat>)
    ensures r.Some? <==> byteLength % FLOAT64_BYTES == 0
    ensures r.Some? ==> r.value * FLOAT64_BYTES == byteLength
  {
    if byteLength % FLOAT64_BYTES == 0 then Some(byteLength / FLOAT64_BYTES) else None
  }

  /**
   * Whether `clearArrayBuffer` as written raises a RangeError before it
   * zeroes anything: `new Float64Array(data)` does for a length that is not a
   * multiple of 8, and `new Uint8Array(data, doublesByteSize)` does for the
   * negative offset a wrapped numDoubles gives.
   */
  predicate ClearRaises(byteLength: nat) {
    Float64ViewLength(byteLength).None? || NumDoubles(byteLength) < 0
  }

  /** Below 2^34 bytes, `clearArrayBuffer` as written raises exactly for the lengths that are not a multiple of 8. */
  lemma ClearRaisesOnRaggedLengths(byteLength: nat)
    requires byteLength < FLOAT64_BYTES * TWO_31
    ensures ClearRaises(byteLength) <==> byteLength % FLOAT64_BYTES != 0
  {
    ClearCoversBuffer(byteLength);
  }

  /** A buffer of exactly 2^34 bytes is a whole number of doubles, yet `| 0` wraps and the remainder view raises. */
  lemma ClearRaisesOnWrappedCount()
    ensures Float64ViewLength(FLOAT64_BYTES * TWO_31).Some?
    ensures ClearRaises(FLOAT64_BYTES * TWO_31)
  {
    assert (FLOAT64_BYTES * TWO_31) / FLOAT64_BYTES == TWO_31;
  }

  /**
   * `clearArrayBuffer` as written. Both views are created before anything is
   * zeroed, so a length that makes either constructor throw leaves the
   * buffer untouched; otherwise the doubles and then the remaining bytes are
   * zeroed, which clears every byte. Returns true when it raised.
   */
  method ClearArrayBufferAsWritten(data: array<Byte>) returns (raised: bool)
    modifies data
    ensures raised <==> ClearRaises(data.Length)
    ensures raised ==> data[..] == old(data[..])
    ensures !raised ==> data[..] == Zeros(data.Length)
  {
    if Float64ViewLength(data.Length).None? {
      return true;
    }
    var numDoubles := NumDoubles(data.Length);
    if numDoubles < 0 {
      return true;
    }
    NonNegativeInt32IsAtMost(data.Length / FLOAT64_BYTES);
    ZeroDoublesThenRest(data, numDoubles);
    return false;
  }

  /** A 13-byte buffer shows it: the remainder loop meant for its last 5 bytes is never reached. */
  lemma ClearAsWrittenRejectsThirteenBytes()
    ensures ClearRaises(13)
    ensures var numDoubles := NumDoubles(13); 13 - numDoubles * FLOAT64_BYTES == 5
  {
    ClearCoversBuffer(13);
    DivModUnique(13, 8, 1, 5);
  }

  /**
   * `clearArrayBuffer` as intended: the double view covers the whole doubles
   * only, so the whole doubles are zeroed eight bytes at a time and then the
   * remaining bytes one at a time, for a buffer of any length below 2^34.
   */
  method ClearArrayBuffer(data: array<Byte>)
    requires data.Length < FLOAT64_BYTES * TWO_31
    modifies data
    ensures data[..] == Zeros(data.Length)
  {
    ClearCoversBuffer(data.Length);
    ZeroDoublesThenRest(data, NumDoubles(data.Length));
  }

  /** The zeroing loops: numDoubles doubles from the start, then every byte after them. */
  method ZeroDoublesThenRest(data: array<Byte>, numDoubles: nat)
    requires numDoubles * FLOAT64_BYTES <= data.Length
    modifies data
    ensures data[..] == Zeros(data.Length)
  {
    var doublesByteSize := numDoubles * FLOAT64_BYTES;
    var remainingBytes := data.Length - doublesByteSize;
    var d := 0;
    while d < numDoubles
      invariant 0 <= d <= numDoubles
      invariant forall k :: 0 <= k < d * FLOAT64_BYTES ==> data[k] == 0
    {
      MulBelow(FLOAT64_BYTES, d, numDoubles);
      var b := 0;
      while b < FLOAT64_BYTES
        invariant 0 <= b <= FLOAT64_BYTES
        invariant forall k :: 0 <= k < d * FLOAT64_BYTES + b ==> data[k] == 0
      {
        data[d * FLOAT64_BYTES + b] := 0;
        b := b + 1;
      }
      d := d + 1;
    }
    var b := 0;
    while b < remainingBytes
      invariant 0 <= b <= remainingBytes
      invariant forall k :: 0 <= k < doublesByteSize + b ==> data[k] == 0
    {
      data[doublesByteSize + b] := 0;
      b := b + 1;
    }
  }

  // ---- copyElementRange

  /** d with the count elements of s from srcOffset written over it from destOffset on. */
  function CopiedRange<T>(d: seq<T>, destOffset: nat, s: seq<T>, srcOffset: nat, count: nat): (r: seq<T>)
    requires destOffset + count <= |d| && srcOffset + count <= |s|
    ensures |r| == |d|
  {
    d[..destOffset] + s[srcOffset..srcOffset + count] + d[destOffset + count..]
  }

  /** Exactly the count destination elements from destOffset on take the source's values. */
  lemma CopiedRangeFrame<T>(d: seq<T>, destOffset: nat, s: seq<T>, srcOffset: nat, count: nat)
    requires destOffset + count <= |d| && srcOffset + count <= |s|
    ensures var r := CopiedRange(d, destOffset, s, srcOffset, count);
      (forall i :: destOffset <= i < destOffset + count ==> r[i] == s[srcOffset + (i - destOffset)])
      && (forall i :: 0 <= i < |d| && !(destOffset <= i < destOffset + count) ==> r[i] == d[i])
  {}

  /**
   * `copyElementRange`: copy count elements of src from srcOffset on into dest
   * from destOffset on, and return dest. The source is read as a value, so it
   * does not alias dest.
   */
  method CopyElementRange<T>(dest: array<T>, destOffset: nat, src: seq<T>, srcOffset: nat, srcCount: nat) returns (r: array<T>)
    requires destOffset + srcCount <= dest.Length && srcOffset + srcCount <= |src|
    modifies dest
    ensures r == dest
    ensures dest[..] == CopiedRange(old(dest[..]), destOffset, src, srcOffset, srcCount)
  {
    var ix := 0;
    var d, s := destOffset, srcOffset;
    while ix < srcCount
      invariant 0 <= ix <= srcCount && d == destOffset + ix && s == srcOffset + ix
      invariant forall i :: destOffset <= i < destOffset + ix ==> dest[i] == src[srcOffset + (i - destOffset)]
      invariant forall i :: 0 <= i < dest.Length && !(destOffset <= i < destOffset + ix) ==> dest[i] == old(dest[i])
    {
      dest[d] := src[s];
      d, s := d + 1, s + 1;
      ix := ix + 1;
    }
    CopiedRangeFrame(old(dest[..]), destOffset, src, srcOffset, srcCount);
    return dest;
  }

  // ---- appendArrayInPlace

  /** A JavaScript array whose contents change in place. */
  class JsArray<T> {
    var items: seq<T>

    constructor (items: seq<T>)
      ensures this.items == items
    {
      this.items := items;
    }

    /** `push.apply(this, xs)` */
    method Push(xs: seq<T>)
      modifies this
      ensures items == old(items) + xs
    {
      items := items + xs;
    }
  }

  /** The largest number of elements appendArrayInPlace pushes in one call. */
  const MAX_BLOCK_SIZE: nat := 65535

  /**
   * The blocks of at most blockSize elements that s is pushed or converted
   * in, in order.
   */
  function Blocks<T>(s: seq<T>, blockSize: nat): (blocks: seq<seq<T>>)
    requires blockSize > 0
    ensures forall b <- blocks :: 0 < |b| <= blockSize
    decreases |s|
  {
    if s == [] then []
    else if |s| <= blockSize then [s]
    else [s[..blockSize]] + Blocks(s[blockSize..], blockSize)
  }

  /** The concatenation of a list of sequences. */
  function Concat<T>(parts: seq<seq<T>>): seq<T> {
    if parts == [] then [] else parts[0] + Concat(parts[1..])
  }

  /** Cutting into blocks loses and reorders nothing. */
  lemma {:induction false} BlocksConcat<T>(s: seq<T>, blockSize: nat)
    requires blockSize > 0
    ensures Concat(Blocks(s, blockSize)) == s
    decreases |s|
  {
    if |s| > blockSize {
      BlocksConcat(s[blockSize..], blockSize);
      assert s == s[..blockSize] + s[blockSize..];
    } else if s != [] {
      assert Concat([s]) == s + Concat([]);
    }
  }

  /**
   * `appendArrayInPlace`: push source onto dest, in one call when it has at
   * most 65535 elements and in blocks of 65535 otherwise; returns dest.
   */
  method AppendArrayInPlace<T>(dest: JsArray<T>, source: seq<T>) returns (r: JsArray<T>)
    modifies dest
    ensures r == dest
    ensures dest.items == old(dest.items) + source
  {
    var offset := 0;
    var itemsLeft := |source|;
    if itemsLeft <= MAX_BLOCK_SIZE {
      dest.Push(source);
    } else {
      while itemsLeft > 0
        invariant 0 <= offset <= |source| && itemsLeft == |source| - offset
        invariant dest.items == old(dest.items) + source[..offset]
      {
        var pushCount := if MAX_BLOCK_SIZE < itemsLeft then MAX_BLOCK_SIZE else itemsLeft;
        var subSource := source[offset..offset + pushCount];
        dest.Push(subSource);
        assert source[..offset + pushCount] == source[..offset] + subSource;
        itemsLeft := itemsLeft - pushCount;
        offset := offset + pushCount;
      }
      assert source[..offset] == source;
    }
    return dest;
  }

  // ---- convertBytesToString

  /** The block size convertBytesToString converts at once. */
  const MAX_CONVERT_BLOCK: nat := 65536

  /** `String.fromCharCode(...codes)`: one character per code. */
  function FromCharCodes(codes: seq<Byte>): (s: string)
    ensures |s| == |codes| && forall i :: 0 <= i < |s| ==> s[i] as int == codes[i]
  {
    seq(|codes|, i requires 0 <= i < |codes| => codes[i] as char)
  }

  /**
   * `convertBytesToString`: convert the bytes in blocks of 65536 and join the
   * pieces; the result has one character per byte, whose code is that byte.
   */
  method ConvertBytesToString(bytes: seq<Byte>) returns (s: string)
    ensures s == FromCharCodes(bytes)
  {
    var strings: seq<string> := [];
    var bytesLeft := |bytes|;
    var offset := 0;
    while bytesLeft > 0
      invariant 0 <= offset <= |bytes| && bytesLeft == |bytes| - offset
      invariant Concat(strings) == FromCharCodes(bytes[..offset])
      invariant offset == 0 <==> strings == []
      invariant |strings| == 1 ==> offset <= MAX_CONVERT_BLOCK
    {
      var blockSize := if bytesLeft < MAX_CONVERT_BLOCK then bytesLeft else MAX_CONVERT_BLOCK;
      var str := FromCharCodes(bytes[offset..offset + blockSize]);
      ConcatSnoc(strings, str);
      assert bytes[..offset + blockSize] == bytes[..offset] + bytes[offset..offset + blockSize];
      FromCharCodesAppend(bytes[..offset], bytes[offset..offset + blockSize]);
      strings := strings + [str];
      offset := offset + blockSize;
      bytesLeft := bytesLeft - blockSize;
    }
    assert bytes[..offset] == bytes;
    if |strings| == 1 {
      assert Concat(strings) == strings[0] + Concat([]);
      s := strings[0];
    } else {
      s := Concat(strings);
    }
  }

  lemma {:induction false} ConcatSnoc<T>(parts: seq<seq<T>>, last: seq<T>)
    ensures Concat(parts + [last]) == Concat(parts) + last
    decreases |parts|
  {
    if parts == [] {
      assert Concat([last]) == last + Concat([]);
    } else {
      assert (parts + [last])[1..] == parts[1..] + [last];
      ConcatSnoc(parts[1..], last);
    }
  }

  /** Converting two byte runs one after the other is converting them together. */
  lemma FromCharCodesAppend(a: seq<Byte>, b: seq<Byte>)
    ensures FromCharCodes(a + b) == FromCharCodes(a) + FromCharCodes(b)
  {}

  /** Converting in blocks gives the same string as converting all at once. */
  lemma BlockwiseConversion(bytes: seq<Byte>, blockSize: nat)
    requires blockSize > 0
    ensures Concat(ConvertBlocks(Blocks(bytes, blockSize))) == FromCharCodes(bytes)
  {
    ConvertBlocksConcat(Blocks(bytes, blockSize));
    BlocksConcat(bytes, blockSize);
  }

  function ConvertBlocks(blocks: seq<seq<Byte>>): seq<string> {
    if blocks == [] then [] else [FromCharCodes(blocks[0])] + ConvertBlocks(blocks[1..])
  }

  lemma {:induction false} ConvertBlocksConcat(blocks: seq<seq<Byte>>)
    ensures Concat(ConvertBlocks(blocks)) == FromCharCodes(Concat(blocks))
    decreases |blocks|
  {
    if blocks != [] {
      ConvertBlocksConcat(blocks[1..]);
      FromCharCodesAppend(blocks[0], Concat(blocks[1..]));
    }
  }

  // ---- indexed vector accessors

  /** The widths of Vec2, Vec3, Vec4, Mat3 and Mat4 accessors. */
  predicate IsIndexedWidth(width: nat) {
    width in {2, 3, 4, 9, 16}
  }

  /** `offsetOfIndexedVecN(index)`: `(index * N) | 0`. */
  function OffsetOfIndexed(width: nat, index: int): int {
    ToInt32(index * width)
  }

  /** Within int32 range the offset of item index is width * index. */
  lemma OffsetOfIndexedIsProduct(width: nat, index: int)
    requires 0 <= index && index * width < TWO_31
    ensures OffsetOfIndexed(width, index) == width * index
  {
    MulNonneg(index, width);
    ConversionsOfNonNegative(index * width);
  }

  /** The item index of width elements lies in a buffer of the given length. */
  predicate IndexInBounds(length: nat, width: nat, index: int) {
    0 <= index && index * width + width <= length && index * width < TWO_31
  }

  /** `copyVecNFromOffset(data, offset)`: the width elements from offset on. */
  function CopyFromOffset<T>(data: array<T>, width: nat, offset: nat): (v: seq<T>)
    requires offset + width <= data.Length
    reads data
    ensures |v| == width && forall k :: 0 <= k < width ==> v[k] == data[offset + k]
  {
    data[offset..offset + width]
  }

  /** `copyIndexedVecN(data, index)`: the width elements of item index. */
  function CopyIndexed<T>(data: array<T>, width: nat, index: int): (v: seq<T>)
    requires IndexInBounds(data.Length, width, index)
    reads data
    ensures |v| == width && forall k :: 0 <= k < width ==> v[k] == data[width * index + k]
  {
    OffsetOfIndexedIsProduct(width, index);
    CopyFromOffset(data, width, OffsetOfIndexed(width, index))
  }

  /** d with v written over it from offset on. */
  function Written<T>(d: seq<T>, offset: nat, v: seq<T>): (r: seq<T>)
    requires offset + |v| <= |d|
    ensures |r| == |d|
  {
    d[..offset] + v + d[offset + |v|..]
  }

  /** Reading back what was written gives it, and nothing outside it changed. */
  lemma WrittenReadsBack<T>(d: seq<T>, offset: nat, v: seq<T>)
    requires offset + |v| <= |d|
    ensures Written(d, offset, v)[offset..offset + |v|] == v
    ensures forall i :: 0 <= i < |d| && !(offset <= i < offset + |v|) ==> Written(d, offset, v)[i] == d[i]
  {}

  /** `setVecNAtOffset(data, offset, v)`: write the width elements of v from offset on. */
  method SetAtOffset<T>(data: array<T>, offset: nat, v: seq<T>)
    requires offset + |v| <= data.Length
    modifies data
    ensures data[..] == Written(old(data[..]), offset, v)
  {
    var k := 0;
    while k < |v|
      invariant 0 <= k <= |v|
      invariant forall i :: 0 <= i < k ==> data[offset + i] == v[i]
      invariant forall i :: 0 <= i < data.Length && !(offset <= i < offset + k) ==> data[i] == old(data[i])
    {
      data[offset + k] := v[k];
      k := k + 1;
    }
    assert data[..] == Written(old(data[..]), offset, v);
  }

  /** `setIndexedVecN(data, index, v)`: write v as item index. */
  method SetIndexed<T>(data: array<T>, width: nat, index: int, v: seq<T>)
    requires |v| == width && IndexInBounds(data.Length, width, index)
    modifies data
    ensures data[..] == Written(old(data[..]), width * index, v)
  {
    OffsetOfIndexedIsProduct(width, index);
    var offset := OffsetOfIndexed(width, index);
    SetAtOffset(data, offset, v);
  }

  /** The indexed accessors are the offset accessors at offsetOfIndexedVecN(index). */
  lemma IndexedIsAtOffset<T>(data: array<T>, width: nat, index: int)
    requires IndexInBounds(data.Length, width, index)
    ensures OffsetOfIndexed(width, index) == width * index
    ensures CopyIndexed(data, width, index) == CopyFromOffset(data, width, OffsetOfIndexed(width, index))
  {
    OffsetOfIndexedIsProduct(width, index);
  }

  /** Setting item index and then copying it returns what was set; the other items keep their values. */
  lemma SetThenCopyIndexed<T>(before: seq<T>, after: array<T>, width: nat, index: int, v: seq<T>)
    requires |v| == width && IndexInBounds(|before|, width, index)
    requires after[..] == Written(before, width * index, v)
    ensures CopyIndexed(after, width, index) == v
    ensures forall i :: 0 <= i < |before| && !(width * index <= i < width * index + width) ==> after[i] == before[i]
  {
    MulNonneg(index, width);
    WrittenReadsBack(before, width * index, v);
    var off := width * index;
    assert CopyIndexed(after, width, index) == after[..][off..off + width];
  }

  /** `refIndexedVecN(data, index)`: the window `subarray(index * N, (index + 1) * N)`. */
  function RefIndexed(length: nat, width: nat, index: int): (w: Window)
    ensures w.End() <= length
  {
    Subarray(length, index * width, (index + 1) * width)
  }

  /** For an in-bounds item the window is exactly its width elements. */
  lemma RefIndexedWindow(length: nat, width: nat, index: int)
    requires IndexInBounds(length, width, index)
    ensures RefIndexed(length, width, index).start == width * index
    ensures RefIndexed(length, width, index).length == width
  {
    MulNonneg(index, width);
    assert (index + 1) * width == index * width + width;
    assert index * width == width * index;
  }
}
