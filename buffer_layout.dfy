/**
 * The layout of vertex attributes inside one vertex of an interleaved vertex
 * buffer: each attribute is placed at the next offset aligned on its element
 * size, and the stride is the end of the last attribute aligned on the
 * largest element size (at least 4 bytes).
 */
module BufferLayout {
  import opened Wrappers
  import opened JsBits
  import opened SdMath
  import opened StructuredStorage
  import Numeric

  /**
   * A vertex field: a number of elements of one numeric type. Its sizes
   * follow the field helpers: the element size is the numeric type's byte
   * size and the field size is that times the element count.
   */
  datatype VertexField = VertexField(numericType: Numeric.NumericType, elementCount: nat) {
    function ElementSizeBytes(): nat { numericType.byteSize }
    function SizeBytes(): nat { numericType.byteSize * elementCount }
  }

  /** The role of an attribute (position, normal, uv, ...), by its enum ordinal. */
  type VertexAttributeRole = nat

  datatype VertexAttribute = VertexAttribute(field: VertexField, role: VertexAttributeRole)

  type PositionedAttribute = PositionedStructField<VertexAttribute>

  /** `Float32Array.BYTES_PER_ELEMENT`, the minimum stride alignment. */
  const FLOAT32_BYTES: nat := 4

  function Max(a: int, b: int): (r: int)
    ensures r >= a && r >= b && (r == a || r == b)
  {
    if a >= b then a else b
  }

  /** `alignFieldOnSize`: align offset on the power of two that is >= size. */
  function AlignFieldOnSize(size: int, offset: int): int {
    var mask := RoundUpPowerOf2(size) - 1;
    And(offset + mask, Not(mask))
  }

  /** An attribute with its type, count, a copy of itself and its size, placed at byteOffset. */
  function Positioned(attr: VertexAttribute, byteOffset: int): (pa: PositionedAttribute)
    ensures pa.Unpositioned() == StructField(attr.field.numericType, attr.field.elementCount, attr)
    ensures pa.byteOffset == byteOffset && pa.sizeBytes == attr.field.SizeBytes()
  {
    PositionedStructField(attr.field.numericType, attr.field.elementCount, attr, byteOffset, attr.field.SizeBytes())
  }

  // ---- the layout calculation as a left fold

  /** The state the calculation threads through the attribute list. */
  datatype Placement = Placement(placed: seq<PositionedAttribute>, offset: int, maxElemSize: int)

  /** Place one more attribute. */
  function Step(p: Placement, attr: VertexAttribute): Placement {
    var alignedOffset := AlignFieldOnSize(attr.field.ElementSizeBytes(), p.offset);
    Placement(p.placed + [Positioned(attr, alignedOffset)],
              alignedOffset + attr.field.SizeBytes(),
              Max(p.maxElemSize, attr.field.ElementSizeBytes()))
  }

  /** The state after placing every attribute of attrs, in order. */
  function PlaceAll(attrs: seq<VertexAttribute>): (p: Placement)
    ensures |p.placed| == |attrs|
    decreases |attrs|
  {
    if attrs == [] then Placement([], 0, 0)
    else Step(PlaceAll(attrs[..|attrs| - 1]), attrs[|attrs| - 1])
  }

  /** The layout `makeStandardVertexBufferLayout` builds for attrs. */
  function StandardLayout(attrs: seq<VertexAttribute>): VertexBufferLayout {
    var p := PlaceAll(attrs);
    VertexBufferLayout(p.placed, AlignFieldOnSize(Max(FLOAT32_BYTES, p.maxElemSize), p.offset))
  }

  /** `makeStandardVertexBufferLayout`: place the attributes one by one, then compute the stride. */
  method MakeStandardVertexBufferLayout(attrList: seq<VertexAttribute>) returns (layout: VertexBufferLayout)
    ensures layout == StandardLayout(attrList)
  {
    var offset, maxElemSize := 0, 0;
    var attributes: seq<PositionedAttribute> := [];
    var i := 0;
    while i < |attrList|
      invariant 0 <= i <= |attrList|
      invariant PlaceAll(attrList[..i]) == Placement(attributes, offset, maxElemSize)
    {
      var attr := attrList[i];
      var sizeBytes := attr.field.SizeBytes();
      maxElemSize := Max(maxElemSize, attr.field.ElementSizeBytes());
      var alignedOffset := AlignFieldOnSize(attr.field.ElementSizeBytes(), offset);
      offset := alignedOffset + sizeBytes;
      attributes := attributes + [Positioned(attr, alignedOffset)];
      assert attrList[..i + 1][..i] == attrList[..i];
      i := i + 1;
    }
    assert attrList[..i] == attrList;
    maxElemSize := Max(FLOAT32_BYTES, maxElemSize);
    var stride := AlignFieldOnSize(maxElemSize, offset);
    layout := VertexBufferLayout(attributes, stride);
  }

  /** `makeLayoutStructFields`: each attribute as an unpositioned struct field carrying a copy of it. */
  function MakeLayoutStructFields(attrList: seq<VertexAttribute>): (fields: seq<StructField<VertexAttribute>>)
    ensures |fields| == |attrList|
    ensures forall i :: 0 <= i < |attrList| ==>
      fields[i] == StructField(attrList[i].field.numericType, attrList[i].field.elementCount, attrList[i])
  {
    seq(|attrList|, i requires 0 <= i < |attrList| =>
      StructField(attrList[i].field.numericType, attrList[i].field.elementCount, attrList[i]))
  }

  // ---- the layout and its lookups

  /** A vertex layout: its own copy of the placed attributes and the size of one vertex. */
  datatype VertexBufferLayout = VertexBufferLayout(attributes: seq<PositionedAttribute>, stride: int) {

    function BytesRequiredForVertexCount(vertexCount: int): int {
      vertexCount * stride
    }

    /** `attributes.find(...)`: the first attribute with the given role, if any. */
    function AttrByRole(role: VertexAttributeRole): (r: Option<PositionedAttribute>)
      ensures r.Some? <==> exists i :: 0 <= i < |attributes| && attributes[i].userData.role == role
      ensures r.Some? ==> exists i :: (0 <= i < |attributes| && attributes[i] == r.value
        && r.value.userData.role == role
        && forall j :: 0 <= j < i ==> attributes[j].userData.role != role)
    {
      FindRole(attributes, role)
    }

    /** `attributes[index] || null`: absent for every index outside the list. */
    function AttrByIndex(index: int): (r: Option<PositionedAttribute>)
      ensures r.Some? <==> 0 <= index < |attributes|
      ensures r.Some? ==> r.value == attributes[index]
    {
      if 0 <= index < |attributes| then Some(attributes[index]) else None
    }

    function HasAttributeWithRole(role: VertexAttributeRole): (b: bool)
      ensures b <==> exists i :: 0 <= i < |attributes| && attributes[i].userData.role == role
    {
      AttrByRole(role).Some?
    }
  }

  /** The first element of list whose role is role. */
  function FindRole(list: seq<PositionedAttribute>, role: VertexAttributeRole): (r: Option<PositionedAttribute>)
    ensures r.Some? <==> exists i :: 0 <= i < |list| && list[i].userData.role == role
    ensures r.Some? ==> exists i :: (0 <= i < |list| && list[i] == r.value
      && r.value.userData.role == role
      && forall j :: 0 <= j < i ==> list[j].userData.role != role)
  {
    if list == [] then None
    else if list[0].userData.role == role then Some(list[0])
    else
      var r := FindRole(list[1..], role);
      assert forall i :: 0 < i < |list| ==> list[i] == list[1..][i - 1];
      r
  }

  // ---- properties of the layout

  /** The shape of the result: same length and order, attribute i describes input i. */
  lemma {:induction false} PlaceAllShape(attrs: seq<VertexAttribute>)
    ensures var p := PlaceAll(attrs);
      |p.placed| == |attrs|
      && forall i :: 0 <= i < |attrs| ==> p.placed[i] == Positioned(attrs[i], p.placed[i].byteOffset)
    decreases |attrs|
  {
    if attrs != [] {
      PlaceAllShape(attrs[..|attrs| - 1]);
    }
  }

  /** Fields of the standard numeric types, whose element sizes are 1, 2, 4 or 8 bytes. */
  predicate StandardField(f: VertexField) {
    f.ElementSizeBytes() in {1, 2, 4, 8}
  }

  /** A bound on the bytes a list of attributes can take up, padding included. */
  function Footprint(attrs: seq<VertexAttribute>): (n: nat)
    ensures n >= 8 * |attrs|
    decreases |attrs|
  {
    if attrs == [] then 0
    else Footprint(attrs[..|attrs| - 1]) + attrs[|attrs| - 1].field.SizeBytes() + 8
  }

  /** Attribute lists whose offsets stay within int32 range, where the bit operations are exact. */
  predicate Fits(attrs: seq<VertexAttribute>) {
    (forall a <- attrs :: StandardField(a.field)) && Footprint(attrs) <= 0x4000_0000
  }

  /** The largest element size among attrs, 0 for none. */
  function MaxElementSize(attrs: seq<VertexAttribute>): int
    decreases |attrs|
  {
    if attrs == [] then 0
    else Max(MaxElementSize(attrs[..|attrs| - 1]), attrs[|attrs| - 1].field.ElementSizeBytes())
  }

  /** MaxElementSize is an upper bound that one of the attributes attains. */
  lemma {:induction false} MaxElementSizeIsMax(attrs: seq<VertexAttribute>)
    ensures forall i :: 0 <= i < |attrs| ==> attrs[i].field.ElementSizeBytes() <= MaxElementSize(attrs)
    ensures attrs == [] ==> MaxElementSize(attrs) == 0
    ensures attrs != [] ==> exists i :: 0 <= i < |attrs| && attrs[i].field.ElementSizeBytes() == MaxElementSize(attrs)
    decreases |attrs|
  {
    if attrs != [] {
      var n := |attrs| - 1;
      var init := attrs[..n];
      MaxElementSizeIsMax(init);
      assert forall i :: 0 <= i < n ==> attrs[i] == init[i];
      if n > 0 && MaxElementSize(init) >= attrs[n].field.ElementSizeBytes() {
        var w :| 0 <= w < n && init[w].field.ElementSizeBytes() == MaxElementSize(init);
        assert attrs[w].field.ElementSizeBytes() == MaxElementSize(attrs);
      } else {
        assert attrs[n].field.ElementSizeBytes() == MaxElementSize(attrs);
      }
    }
  }

  /** x is a non-negative multiple of e. */
  predicate AlignedOn(x: int, e: int) {
    0 <= x && e > 0 && x % e == 0
  }

  /**
   * The invariant of the fold: the cursor within the footprint, the largest
   * element size so far, each attribute aligned on its element size, each
   * attribute starting at or after the end of the one before, and the last
   * one ending at or before the cursor.
   */
  predicate PlacedWell(attrs: seq<VertexAttribute>, p: Placement) {
    && |p.placed| == |attrs|
    && 0 <= p.offset <= Footprint(attrs)
    && p.maxElemSize == MaxElementSize(attrs)
    && (forall i :: 0 <= i < |attrs| ==> AlignedOn(p.placed[i].byteOffset, attrs[i].field.ElementSizeBytes()))
    && (forall i :: 0 < i < |attrs| ==> p.placed[i - 1].End() <= p.placed[i].byteOffset)
    && (|attrs| > 0 ==> p.placed[|attrs| - 1].End() <= p.offset)
  }

  /** In a chain of fields each starting after the previous one ends, no two fields overlap. */
  lemma {:induction false} ChainDisjoint(placed: seq<PositionedAttribute>, i: int, j: int)
    requires forall k :: 0 < k < |placed| ==> placed[k - 1].End() <= placed[k].byteOffset
    requires 0 <= i < j < |placed|
    ensures placed[i].End() <= placed[j].byteOffset
    decreases j - i
  {
    if j > i + 1 {
      ChainDisjoint(placed, i, j - 1);
    }
  }

  /** Rounding a standard element size up to a power of two leaves it unchanged. */
  lemma RoundUpOfElementSize(e: int)
    requires e in {1, 2, 4, 8}
    ensures RoundUpPowerOf2(e) == e && IsPow2(e)
  {
    Pow2Values();
    if e == 1 { RoundUpPowerOf2Identity(0); }
    else if e == 2 { RoundUpPowerOf2Identity(1); }
    else if e == 4 { RoundUpPowerOf2Identity(2); }
    else { RoundUpPowerOf2Identity(3); }
  }

  lemma AlignFieldOnSizeRounded(size: int, offset: int)
    ensures AlignFieldOnSize(size, offset) == AlignUp(offset, RoundUpPowerOf2(size))
  {}

  /** alignFieldOnSize with a standard element size finds the next multiple of it. */
  lemma AlignFieldOnSizeStandard(e: int, offset: int)
    requires e in {1, 2, 4, 8} && 0 <= offset <= 0x4000_0000
    ensures var r := AlignFieldOnSize(e, offset);
      r % e == 0 && offset <= r < offset + e
  {
    AlignFieldOnSizeRounded(e, offset);
    RoundUpOfElementSize(e);
    AlignUpIsSmallestMultiple(offset, e);
  }

  /** alignFieldOnSize is alignUp on the rounded-up size, the smallest aligned offset at or after offset. */
  lemma AlignFieldOnSizeIsAlignUp(size: int, offset: int)
    requires 1 <= size <= 0x4000_0000 && 0 <= offset <= 0x4000_0000
    ensures var a := RoundUpPowerOf2(size);
      var r := AlignFieldOnSize(size, offset);
      r == AlignUp(offset, a) && IsPow2(a) && r % a == 0 && offset <= r < offset + a
  {
    RoundUpPowerOf2Bounds(size);
    var a := RoundUpPowerOf2(size);
    assert a <= 0x4000_0000 by {
      Pow2Values();
      assert size <= Pow2(30);
    }
    AlignFieldOnSizeRounded(size, offset);
    AlignUpIsSmallestMultiple(offset, a);
  }

  /** Footprint and largest element size of a list with one more attribute. */
  lemma SnocMeasures(init: seq<VertexAttribute>, last: VertexAttribute)
    ensures Footprint(init + [last]) == Footprint(init) + last.field.SizeBytes() + 8
    ensures MaxElementSize(init + [last]) == Max(MaxElementSize(init), last.field.ElementSizeBytes())
  {
    assert (init + [last])[..|init|] == init;
  }

  /** Placing one more attribute at an aligned offset at or after the cursor keeps the invariant. */
  lemma PlacedWellAppend(init: seq<VertexAttribute>, last: VertexAttribute, p: Placement, aligned: int)
    requires PlacedWell(init, p)
    requires AlignedOn(aligned, last.field.ElementSizeBytes())
    requires p.offset <= aligned < p.offset + last.field.ElementSizeBytes() <= p.offset + 8
    ensures PlacedWell(init + [last], Placement(p.placed + [Positioned(last, aligned)], aligned + last.field.SizeBytes(),
                                                 Max(p.maxElemSize, last.field.ElementSizeBytes())))
  {
    var attrs := init + [last];
    var placed := p.placed + [Positioned(last, aligned)];
    var n := |init|;
    SnocMeasures(init, last);
    forall i | 0 <= i < |attrs|
      ensures AlignedOn(placed[i].byteOffset, attrs[i].field.ElementSizeBytes())
    {
      if i < n {
        assert attrs[i] == init[i] && placed[i] == p.placed[i];
      }
    }
    forall i | 0 < i < |attrs|
      ensures placed[i - 1].End() <= placed[i].byteOffset
    {
      if i < n {
        assert placed[i - 1] == p.placed[i - 1] && placed[i] == p.placed[i];
      } else {
        assert placed[i - 1] == p.placed[n - 1];
      }
    }
  }

  /** One step of the fold keeps the invariant while the footprint stays in range. */
  lemma StepWell(init: seq<VertexAttribute>, last: VertexAttribute, p: Placement)
    requires PlacedWell(init, p) && StandardField(last.field)
    requires Footprint(init) <= 0x4000_0000
    ensures PlacedWell(init + [last], Step(p, last))
  {
    var e := last.field.ElementSizeBytes();
    AlignFieldOnSizeStandard(e, p.offset);
    PlacedWellAppend(init, last, p, AlignFieldOnSize(e, p.offset));
  }

  /** The prefix of a fitting list fits, and its last attribute is a standard one. */
  lemma FitsPrefix(attrs: seq<VertexAttribute>)
    requires Fits(attrs) && attrs != []
    ensures Fits(attrs[..|attrs| - 1]) && StandardField(attrs[|attrs| - 1].field)
    ensures attrs[..|attrs| - 1] + [attrs[|attrs| - 1]] == attrs
  {
    var init := attrs[..|attrs| - 1];
    assert forall a <- init :: a in attrs;
    assert attrs[|attrs| - 1] in attrs;
  }

  lemma {:induction false} PlaceAllWell(attrs: seq<VertexAttribute>)
    requires Fits(attrs)
    ensures PlacedWell(attrs, PlaceAll(attrs))
    decreases |attrs|
  {
    if attrs != [] {
      var n := |attrs| - 1;
      FitsPrefix(attrs);
      PlaceAllWell(attrs[..n]);
      StepWell(attrs[..n], attrs[n], PlaceAll(attrs[..n]));
    }
  }

  /**
   * Every attribute's offset is a multiple of its rounded-up element size,
   * which for the standard numeric types is the element size itself.
   */
  lemma LayoutAligned(attrs: seq<VertexAttribute>)
    requires Fits(attrs)
    ensures var layout := StandardLayout(attrs);
      |layout.attributes| == |attrs|
      && forall i :: 0 <= i < |attrs| ==>
        var e := attrs[i].field.ElementSizeBytes();
        RoundUpPowerOf2(e) == e && 0 <= layout.attributes[i].byteOffset && layout.attributes[i].byteOffset % e == 0
  {
    PlaceAllWell(attrs);
    forall i | 0 <= i < |attrs|
      ensures RoundUpPowerOf2(attrs[i].field.ElementSizeBytes()) == attrs[i].field.ElementSizeBytes()
    {
      RoundUpOfElementSize(attrs[i].field.ElementSizeBytes());
    }
  }

  /** No two attributes overlap: each starts at or after the end of every earlier one. */
  lemma LayoutDisjoint(attrs: seq<VertexAttribute>)
    requires Fits(attrs)
    ensures var layout := StandardLayout(attrs);
      |layout.attributes| == |attrs|
      && forall i, j :: 0 <= i < j < |attrs| ==> layout.attributes[i].End() <= layout.attributes[j].byteOffset
  {
    PlaceAllWell(attrs);
    var placed := PlaceAll(attrs).placed;
    forall i, j | 0 <= i < j < |attrs|
      ensures placed[i].End() <= placed[j].byteOffset
    {
      ChainDisjoint(placed, i, j);
    }
  }

  /** Attribute i carries input i's type, count, a copy of it and its size, in input order. */
  lemma LayoutPreservesOrder(attrs: seq<VertexAttribute>)
    ensures var layout := StandardLayout(attrs);
      |layout.attributes| == |attrs|
      && forall i :: 0 <= i < |attrs| ==>
        layout.attributes[i].Unpositioned() == MakeLayoutStructFields(attrs)[i]
        && layout.attributes[i].sizeBytes == attrs[i].field.SizeBytes()
  {
    PlaceAllShape(attrs);
  }

  /** Every attribute ends at or before the cursor the fold finishes with. */
  lemma PlacedBeforeCursor(attrs: seq<VertexAttribute>)
    requires Fits(attrs)
    ensures forall i :: 0 <= i < |attrs| ==> 0 <= PlaceAll(attrs).placed[i].End() <= PlaceAll(attrs).offset
  {
    PlaceAllWell(attrs);
    var p := PlaceAll(attrs);
    var n := |attrs| - 1;
    forall i | 0 <= i < |attrs|
      ensures 0 <= p.placed[i].End() <= p.offset
    {
      assert AlignedOn(p.placed[i].byteOffset, attrs[i].field.ElementSizeBytes());
      if i < n {
        ChainDisjoint(p.placed, i, n);
      }
    }
  }

  /**
   * The stride is at least the end of every attribute and a multiple of the
   * rounded-up largest element size (at least 4), hence a multiple of 4.
   */
  lemma LayoutStride(attrs: seq<VertexAttribute>)
    requires Fits(attrs)
    ensures var layout := StandardLayout(attrs);
      var maxElemSize := Max(FLOAT32_BYTES, MaxElementSize(attrs));
      var end := PlaceAll(attrs).offset;
      |layout.attributes| == |attrs|
      && (forall i :: 0 <= i < |attrs| ==> layout.attributes[i].End() <= end)
      && RoundUpPowerOf2(maxElemSize) == maxElemSize && layout.stride % maxElemSize == 0
      && layout.stride % 4 == 0
      && end <= layout.stride < end + maxElemSize
  {
    PlaceAllWell(attrs);
    PlacedBeforeCursor(attrs);
    MaxElementSizeIsMax(attrs);
    var p := PlaceAll(attrs);
    var m := Max(FLOAT32_BYTES, p.maxElemSize);
    assert m in {4, 8} by {
      if attrs != [] {
        var w :| 0 <= w < |attrs| && attrs[w].field.ElementSizeBytes() == p.maxElemSize;
        assert attrs[w] in attrs;
      }
    }
    RoundUpOfElementSize(m);
    AlignFieldOnSizeStandard(m, p.offset);
    var s := StandardLayout(attrs).stride;
    if m == 8 {
      DivModUnique(s, 4, 2 * (s / 8), 0);
    }
  }

  /** Every attribute starts at a non-negative offset and ends within the stride. */
  predicate WithinStride(layout: VertexBufferLayout) {
    forall pa <- layout.attributes :: 0 <= pa.byteOffset && pa.End() <= layout.stride
  }

  /** Standard layouts of fitting attribute lists keep every attribute within the stride. */
  lemma StandardLayoutWithinStride(attrs: seq<VertexAttribute>)
    requires Fits(attrs)
    ensures WithinStride(StandardLayout(attrs))
  {
    LayoutStride(attrs);
    PlacedBeforeCursor(attrs);
    LayoutAligned(attrs);
  }

  /** Every byte of every attribute of the first n vertices lies in the n * stride bytes required. */
  lemma VertexBytesInside(layout: VertexBufferLayout, vertexCount: int, v: int, i: int)
    requires WithinStride(layout) && 0 <= v < vertexCount && 0 <= i < |layout.attributes|
    ensures var start := v * layout.stride + layout.attributes[i].byteOffset;
      0 <= start && start + layout.attributes[i].sizeBytes <= layout.BytesRequiredForVertexCount(vertexCount)
  {
    assert layout.attributes[i] in layout.attributes;
    SlotInside(v, vertexCount, layout.stride, layout.attributes[i].byteOffset, layout.attributes[i].sizeBytes);
  }

  /** A range inside one stride-sized slot v < n lies inside n slots. */
  lemma SlotInside(v: int, n: int, stride: int, offset: int, size: nat)
    requires 0 <= v < n && 0 <= offset && offset + size <= stride
    ensures 0 <= v * stride + offset && v * stride + offset + size <= n * stride
  {
    MulNonneg(v, stride);
    if stride > 0 {
      MulBelow(stride, v, n);
    }
  }

  /** Placing an attribute whose aligned offset is known. */
  lemma StepAt(p: Placement, attr: VertexAttribute, aligned: int)
    requires AlignFieldOnSize(attr.field.ElementSizeBytes(), p.offset) == aligned
    ensures Step(p, attr) == Placement(p.placed + [Positioned(attr, aligned)], aligned + attr.field.SizeBytes(),
                                       Max(p.maxElemSize, attr.field.ElementSizeBytes()))
  {}

  /** A Float32 x 3 attribute alone is placed at 0 and moves the cursor to 12. */
  lemma ExampleFirst(position: VertexAttribute)
    requires position.field == VertexField(Numeric.Float, 3)
    ensures PlaceAll([position]) == Placement([Positioned(position, 0)], 12, 4)
  {
    var p0 := PlaceAll([]);
    var e := position.field.ElementSizeBytes();
    assert AlignFieldOnSize(e, p0.offset) == 0 by {
      AlignFieldOnSizeStandard(e, p0.offset);
      DivModUnique(AlignFieldOnSize(e, p0.offset), e, 0, AlignFieldOnSize(e, p0.offset));
    }
    StepAt(p0, position, 0);
    assert [position][..0] == [];
    assert PlaceAll([position]) == Step(p0, position);
  }

  /** A UInt8 x 1 attribute after it is placed at 12 and moves the cursor to 13. */
  lemma ExampleSecond(position: VertexAttribute, color: VertexAttribute)
    requires position.field == VertexField(Numeric.Float, 3) && color.field == VertexField(Numeric.UInt8, 1)
    ensures PlaceAll([position, color]) == Placement([Positioned(position, 0), Positioned(color, 12)], 13, 4)
  {
    ExampleFirst(position);
    var p1 := PlaceAll([position]);
    var e := color.field.ElementSizeBytes();
    assert AlignFieldOnSize(e, p1.offset) == 12 by {
      AlignFieldOnSizeStandard(e, p1.offset);
    }
    assert [position, color][..1] == [position];
  }

  /** `[Float32 x 3, UInt8 x 1]` is placed at offsets 0 and 12 with a stride of 16, whatever the roles. */
  lemma LayoutExample(position: VertexAttribute, color: VertexAttribute)
    requires position.field == VertexField(Numeric.Float, 3) && color.field == VertexField(Numeric.UInt8, 1)
    ensures var layout := StandardLayout([position, color]);
      |layout.attributes| == 2
      && layout.attributes[0].byteOffset == 0 && layout.attributes[0].sizeBytes == 12
      && layout.attributes[1].byteOffset == 12 && layout.attributes[1].sizeBytes == 1
      && layout.stride == 16
  {
    ExampleSecond(position, color);
    var p2 := PlaceAll([position, color]);
    var m := Max(FLOAT32_BYTES, p2.maxElemSize);
    AlignFieldOnSizeStandard(m, p2.offset);
    OnlyMultipleOfFourIn13To16(AlignFieldOnSize(m, p2.offset));
  }

  lemma OnlyMultipleOfFourIn13To16(r: int)
    requires r % 4 == 0 && 13 <= r < 17
    ensures r == 16
  {}

  /** The role search agrees with the index lookup: a found attribute is the one at some index. */
  lemma AttrByRoleIsAtIndex(layout: VertexBufferLayout, role: VertexAttributeRole)
    ensures layout.AttrByRole(role).Some? ==>
      exists i :: layout.AttrByIndex(i) == layout.AttrByRole(role) && layout.AttrByRole(role).value.userData.role == role
    ensures layout.HasAttributeWithRole(role) <==> layout.AttrByRole(role).Some?
  {
    var r := layout.AttrByRole(role);
    if r.Some? {
      var i :| 0 <= i < |layout.attributes| && layout.attributes[i] == r.value && r.value.userData.role == role
        && forall j :: 0 <= j < i ==> layout.attributes[j].userData.role != role;
      assert layout.AttrByIndex(i) == r;
    }
  }
}
