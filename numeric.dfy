/**
 * The numeric type registry: one immutable descriptor per primitive kind,
 * giving its value range, signedness and storage size. The typed-array
 * constructor of each kind is kept as a tag only.
 */
module Numeric {
  import opened JsBits

  /** The typed-array class a numeric type's views are built from. */
  datatype ArrayKind =
    | Uint8Array | Uint8ClampedArray | Int8Array
    | Uint16Array | Int16Array | Uint32Array | Int32Array
    | Float32Array | Float64Array

  datatype NumericType = NumericType(min: int, max: int, signed: bool, byteSize: nat, arrayType: ArrayKind)

  const UInt8 := NumericType(0, 255, false, 1, Uint8Array)
  const UInt8Clamped := NumericType(0, 255, false, 1, Uint8ClampedArray)
  const SInt8 := NumericType(-128, 127, true, 1, Int8Array)
  const UInt16 := NumericType(0, 65535, false, 2, Uint16Array)
  const SInt16 := NumericType(-32768, 32767, true, 2, Int16Array)
  const UInt32 := NumericType(0, 4294967295, false, 4, Uint32Array)
  const SInt32 := NumericType(-2147483648, 2147483647, true, 4, Int32Array)
  /** The float limits are integral numbers, so they are kept exactly. */
  const Float := NumericType(
    -340282346638528859811704183484516925440,
    340282346638528859811704183484516925440,
    true, 4, Float32Array)
  const Double := NumericType(
    -179769313486231570814527423731704356798070567525844996598917476803157260780028538760589558632766878171540458953514382464234321326889464182768467546703537516986049910576551282076245490090389328944075868508455133942304583236903222948165808559332123348274797826204144723168738177180919299881250404026184124858368,
    179769313486231570814527423731704356798070567525844996598917476803157260780028538760589558632766878171540458953514382464234321326889464182768467546703537516986049910576551282076245490090389328944075868508455133942304583236903222948165808559332123348274797826204144723168738177180919299881250404026184124858368,
    true, 8, Float64Array)

  /** The seven integer kinds, in declaration order. */
  const IntegerTypes: seq<NumericType> := [UInt8, UInt8Clamped, SInt8, UInt16, SInt16, UInt32, SInt32]

  /** The two floating-point kinds. */
  const FloatTypes: seq<NumericType> := [Float, Double]

  /** Every descriptor of the registry. */
  const AllTypes: seq<NumericType> := IntegerTypes + FloatTypes

  /** Storage sizes: 1, 1, 1, 2, 2, 4, 4 for the integer kinds, 4 and 8 for the float kinds. */
  lemma ByteSizes()
    ensures forall t <- AllTypes :: t.byteSize in {1, 2, 4, 8}
    ensures [UInt8.byteSize, UInt8Clamped.byteSize, SInt8.byteSize, UInt16.byteSize,
             SInt16.byteSize, UInt32.byteSize, SInt32.byteSize] == [1, 1, 1, 2, 2, 4, 4]
    ensures Float.byteSize == 4 && Double.byteSize == 8
  {}

  /** A descriptor is signed exactly when its range reaches below zero. */
  lemma SignedIffNegativeMin()
    ensures forall t <- AllTypes :: t.signed <==> t.min < 0
  {}

  /** The range of t holds exactly 2^(8 * byteSize) values. */
  predicate CoversItsWidth(t: NumericType) {
    t.max - t.min + 1 == Pow2(8 * t.byteSize)
  }

  /** Each integer kind covers exactly 2^(8 * byteSize) values. */
  lemma IntegerRangeWidth()
    ensures forall t <- IntegerTypes :: CoversItsWidth(t)
  {
    Pow2Bytes();
    assert CoversItsWidth(UInt8) && CoversItsWidth(UInt8Clamped) && CoversItsWidth(SInt8);
    assert CoversItsWidth(UInt16) && CoversItsWidth(SInt16);
    assert CoversItsWidth(UInt32) && CoversItsWidth(SInt32);
  }

  /** Signed integer kinds are two's complement ranges; unsigned ones start at zero. */
  lemma IntegerRangeShape()
    ensures forall t <- IntegerTypes :: if t.signed then t.min == -(t.max + 1) else t.min == 0
  {}

  /** UInt8 and UInt8Clamped differ only in the typed array they use. */
  lemma ClampedMatchesUInt8()
    ensures UInt8Clamped == UInt8.(arrayType := Uint8ClampedArray)
    ensures UInt8Clamped.arrayType != UInt8.arrayType
  {}

  /** Float ranges are symmetric around zero. */
  lemma FloatRangeSymmetric()
    ensures forall t <- FloatTypes :: t.min == -t.max && t.signed
  {}
}
