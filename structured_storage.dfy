/**
 * The struct-field records of the structured-storage package, which the
 * vertex layout produces and the struct-of-arrays container consumes.
 */
module StructuredStorage {
  import Numeric

  /** A field of a struct: `count` elements of one numeric type, with caller data attached. */
  datatype StructField<T> = StructField(numericType: Numeric.NumericType, count: nat, userData: T)

  /** A struct field placed at a byte offset, with its size in bytes. */
  datatype PositionedStructField<T> = PositionedStructField(
    numericType: Numeric.NumericType, count: nat, userData: T, byteOffset: int, sizeBytes: nat)
  {
    /** The first byte past the field. */
    function End(): int { byteOffset + sizeBytes }

    /** The field without its position. */
    function Unpositioned(): StructField<T> { StructField(numericType, count, userData) }
  }

  /** The placed fields of a struct and the size of one struct in bytes. */
  datatype StructLayout<T> = StructLayout(posFields: seq<PositionedStructField<T>>, totalSizeBytes: nat)
}
