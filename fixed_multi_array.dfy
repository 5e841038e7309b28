/**
 * A fixed-capacity struct of arrays: one byte buffer holds, for every field
 * of a struct layout, one region of `capacity` values of that field, and the
 * container keeps one typed view per field onto its region.
 */
module FixedMultiArrays {
  import opened JsBits
  import opened StructuredStorage
  import opened ContainerArray
  import Numeric

  /** A typed-array view onto the backing buffer: length elements of elementSize bytes from byteOffset on. */
  datatype FieldView = FieldView(arrayType: Numeric.ArrayKind, byteOffset: nat, length: nat, elementSize: nat) {
    /** The first byte past the view. */
    function ByteEnd(): nat { byteOffset + length * elementSize }
  }

  /** Two placed fields share no byte. */
  predicate Apart<T>(a: PositionedStructField<T>, b: PositionedStructField<T>) {
    a.End() <= b.byteOffset || b.End() <= a.byteOffset
  }

  /** A placed field as a struct layout is expected to provide it. */
  predicate WellPlaced<T>(f: PositionedStructField<T>, totalSizeBytes: nat) {
    0 <= f.byteOffset && f.numericType.byteSize > 0
    && f.sizeBytes == f.count * f.numericType.byteSize
    && f.byteOffset % f.numericType.byteSize == 0
    && f.End() <= totalSizeBytes
  }

  /**
   * The layouts the container is built from: every field lies inside the
   * struct, is aligned on its element size, and no two fields overlap.
   */
  predicate WellFormedLayout<T>(layout: StructLayout<T>) {
    (forall i :: 0 <= i < |layout.posFields| ==> WellPlaced(layout.posFields[i], layout.totalSizeBytes))
    && forall i, j :: 0 <= i < j < |layout.posFields| ==> Apart(layout.posFields[i], layout.posFields[j])
  }

  /** The view of one field in a struct of arrays of the given capacity. */
  function BasePointer<T>(capacity: nat, f: PositionedStructField<T>): FieldView
    requires 0 <= f.byteOffset
  {
    FieldView(f.numericType.arrayType, capacity * f.byteOffset, capacity * f.count, f.numericType.byteSize)
  }

  /** The views of all fields, in field order. */
  function BasePointers<T>(capacity: nat, fields: seq<PositionedStructField<T>>): (views: seq<FieldView>)
    requires forall i :: 0 <= i < |fields| ==> 0 <= fields[i].byteOffset
    ensures |views| == |fields|
  {
    seq(|fields|, i requires 0 <= i < |fields| => BasePointer(capacity, fields[i]))
  }

  class FixedMultiArray<UD> {
    const layout: StructLayout<UD>
    const capacity: nat
    const data: array<Byte>
    const basePointers: seq<FieldView>

    /** The container's invariant. */
    predicate Valid() {
      capacity > 0 && |layout.posFields| > 0 && WellFormedLayout(layout)
      && data.Length == capacity * layout.totalSizeBytes
      && basePointers == BasePointers(capacity, layout.posFields)
    }

    /**
     * A zero-filled buffer of capacity structs laid out field by field, and
     * one view per field onto its region.
     */
    constructor (capacity: nat, layout: StructLayout<UD>)
      requires capacity > 0 && |layout.posFields| > 0 && WellFormedLayout(layout)
      ensures Valid()
      ensures this.capacity == capacity && this.layout == layout
      ensures fresh(data) && data[..] == Zeros(data.Length)
    {
      this.layout := layout;
      this.capacity := capacity;
      MulNonneg(capacity, layout.totalSizeBytes);
      data := new Byte[capacity * layout.totalSizeBytes](_ => 0);
      basePointers := BasePointers(capacity, layout.posFields);
    }

    /** `fieldCount`: the number of views, one per layout field. */
    function FieldCount(): (n: nat)
      requires Valid()
      ensures n == |layout.posFields| && n > 0
    {
      |basePointers|
    }

    /** `field(index)`: the placed layout field. */
    function Field(index: nat): (f: PositionedStructField<UD>)
      requires Valid() && index < FieldCount()
      ensures f == layout.posFields[index]
      ensures WellPlaced(f, layout.totalSizeBytes)
    {
      layout.posFields[index]
    }

    /** `capacity`: the number of structs the buffer holds. */
    function Capacity(): (c: nat)
      requires Valid()
      ensures c > 0 && data.Length == c * layout.totalSizeBytes
    {
      capacity
    }

    /**
     * `indexedFieldView(index)`: the cached view of field index, which starts at
     * byte capacity * byteOffset and holds capacity * count elements.
     */
    function IndexedFieldView(index: nat): (v: FieldView)
      requires Valid() && index < FieldCount()
      ensures v == basePointers[index]
      ensures v.byteOffset == capacity * layout.posFields[index].byteOffset
      ensures v.length == capacity * layout.posFields[index].count
      ensures v.elementSize == layout.posFields[index].numericType.byteSize
      ensures v.arrayType == layout.posFields[index].numericType.arrayType
    {
      basePointers[index]
    }

    /**
     * `clear()`: `clearArrayBuffer` on the backing buffer, as written. It
     * raises, leaving the buffer as it was, when the buffer length is not a
     * multiple of 8; otherwise every byte is zero. The views stay as they are.
     */
    method Clear() returns (raised: bool)
      requires Valid()
      modifies data
      ensures Valid()
      ensures raised <==> ClearRaises(data.Length)
      ensures raised ==> data[..] == old(data[..])
      ensures !raised ==> data[..] == Zeros(data.Length)
    {
      raised := ClearArrayBufferAsWritten(data);
    }
  }

  /** Capacity 1 with a single Float field gives a 4-byte buffer, and `clear()` raises on it. */
  lemma ClearRaisesOnSingleFloat()
    ensures Numeric.Float.byteSize == 4
    ensures ClearRaises(1 * Numeric.Float.byteSize)
  {}

  lemma MulMonotone(c: nat, a: int, b: int)
    requires a <= b
    ensures c * a <= c * b
  {
    assert c * b - c * a == c * (b - a);
    MulNonneg(c, b - a);
  }

  /** A field's view covers the field's bytes scaled by the capacity. */
  lemma ViewBytes<T>(capacity: nat, f: PositionedStructField<T>, totalSizeBytes: nat)
    requires WellPlaced(f, totalSizeBytes)
    ensures BasePointer(capacity, f).byteOffset == capacity * f.byteOffset
    ensures BasePointer(capacity, f).ByteEnd() == capacity * f.End()
  {
    var v := BasePointer(capacity, f);
    var bs := f.numericType.byteSize;
    assert v.length * v.elementSize == (capacity * f.count) * bs;
    assert (capacity * f.count) * bs == capacity * (f.count * bs);
    assert capacity * f.byteOffset + capacity * f.sizeBytes == capacity * (f.byteOffset + f.sizeBytes);
  }

  /** Every view lies inside the backing buffer. */
  lemma ViewsInsideBuffer<UD>(a: FixedMultiArray<UD>, i: nat)
    requires a.Valid() && i < a.FieldCount()
    ensures a.IndexedFieldView(i).ByteEnd() <= a.data.Length
  {
    var f := a.layout.posFields[i];
    ViewBytes(a.capacity, f, a.layout.totalSizeBytes);
    MulMonotone(a.capacity, f.End(), a.layout.totalSizeBytes);
  }

  /** Views of different fields share no byte. */
  lemma ViewsDisjoint<UD>(a: FixedMultiArray<UD>, i: nat, j: nat)
    requires a.Valid() && i < a.FieldCount() && j < a.FieldCount() && i != j
    ensures var vi, vj := a.IndexedFieldView(i), a.IndexedFieldView(j);
      vi.ByteEnd() <= vj.byteOffset || vj.ByteEnd() <= vi.byteOffset
  {
    var fi, fj := a.layout.posFields[i], a.layout.posFields[j];
    ViewBytes(a.capacity, fi, a.layout.totalSizeBytes);
    ViewBytes(a.capacity, fj, a.layout.totalSizeBytes);
    assert Apart(fi, fj) by {
      if i > j {
        assert Apart(fj, fi);
      }
    }
    if fi.End() <= fj.byteOffset {
      MulMonotone(a.capacity, fi.End(), fj.byteOffset);
    } else {
      MulMonotone(a.capacity, fj.End(), fi.byteOffset);
    }
  }

  /** Every view starts on a multiple of its element size, as a typed-array view must. */
  lemma ViewsAligned<UD>(a: FixedMultiArray<UD>, i: nat)
    requires a.Valid() && i < a.FieldCount()
    ensures var v := a.IndexedFieldView(i);
      v.elementSize > 0 && v.byteOffset % v.elementSize == 0
  {
    var f := a.layout.posFields[i];
    var bs := f.numericType.byteSize;
    var q := f.byteOffset / bs;
    assert f.byteOffset == bs * q;
    assert a.capacity * f.byteOffset == bs * (a.capacity * q);
    MulNonneg(a.capacity, q);
    DivModUnique(a.capacity * f.byteOffset, bs, a.capacity * q, 0);
  }
}
