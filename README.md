# Stardazed structured memory layout, in Dafny

This project models the structured memory layout core of the Stardazed
engine, plus the asset registries and the model-assembly step of its asset
loader. It proves the properties that the code and its comments promise.

- **Numeric types** (`Numeric`): the nine descriptors `UInt8` … `Double`, with
  their ranges, signedness and byte sizes. The typed-array constructor is kept
  as a tag only.
- **Integer helpers** (`SdMath`, on top of `JsBits`): `roundUpPowerOf2`,
  `alignUp` and `alignDown` are written with ECMAScript's int32 `|`, `&`, `~`
  and `>>`, so wrap-around is explicit. The module also has `clamp`, the Vec
  and Mat size constants, and `vectorArrayItem`.
- **Vertex buffer layout** (`BufferLayout`): `makeStandardVertexBufferLayout`
  is a loop, proved equal to a left fold (`PlaceAll`) over the attributes.
  The alignment, non-overlap, order and stride properties are proved about
  that fold. The layout's lookups are functions over its own copy of the
  attribute list.
- **Fixed multi-array** (`FixedMultiArrays`): a class that owns the backing
  byte array and caches one view per field. A view is a (byte offset, element
  count) window, not an aliasing object. `clear()` zeroes the array in place.
- **Array helpers** (`ContainerArray`): resizing by copying, zeroing, range
  copy, chunked append, chunked bytes-to-string, and the strided vector
  accessors. The in-place helpers are methods over `array`s. Each one is
  proved against a function of the old contents.
- **Asset registries** (`AssetParsers`, `AssetParser`): the extension→MIME and
  MIME→kind tables are maps held by a class. Registration and lookup are
  functions over those maps, with the source's lower-casing and trimming
  (`JsString`). A failed `assert` becomes an `AssertionFailed` result.
  `assetKindForAsset` and the decision of `assetParser` are pure functions.
- **Model assembly** (`ModelParser`): `parseModel` is a loop over the
  dependency names. It is proved equal to a fold (`Materials`). A settled
  promise is a `Result`.

The `Vec2`, `Vec3`, `Vec4`, `Mat3` and `Mat4` accessors differ only in their
width. One generic member, with a `width` parameter, stands for all five.
`IsIndexedWidth` names the five widths.

## Model

| member | source | states |
|---|---|---|
| Numeric.ByteSizes | src/core/numeric.ts:40-110 | every descriptor's byte size is 1, 2, 4 or 8; the integer kinds have 1/1/1/2/2/4/4, Float has 4 and Double 8 |
| Numeric.SignedIffNegativeMin | src/core/numeric.ts:40-110 | a descriptor is signed exactly when its minimum is below zero |
| Numeric.IntegerRangeWidth | src/core/numeric.ts:40-94 | every integer kind covers exactly 2^(8·byteSize) values |
| Numeric.IntegerRangeShape | src/core/numeric.ts:56-94 | signed integer kinds have min == −(max + 1); unsigned ones have min == 0 |
| Numeric.ClampedMatchesUInt8 | src/core/numeric.ts:40-54 | UInt8Clamped equals UInt8 except for its array kind, which differs |
| Numeric.FloatRangeSymmetric | src/core/numeric.ts:96-110 | Float and Double are signed and have min == −max |
| SdMath.Clamp | src/math.ts:36-38 | for min ≤ max the result lies in [min, max] and is n when n is already in range; for max < min it is min |
| SdMath.RoundUpPowerOf2NonPositive | src/math.ts:50-51 | roundUpPowerOf2 of n ≤ 0 is 1 |
| SdMath.RoundUpPowerOf2Bounds | src/math.ts:46-59 | for 1 ≤ n ≤ 2^30 the int32 bit-smearing result is a power of two p with n ≤ p < 2n, and p is at most every power of two that is ≥ n |
| SdMath.RoundUpPowerOf2Identity | src/math.ts:46-59 | a power of two up to 2^30 is its own rounding, so rounding is idempotent on them |
| SdMath.RoundUpPowerOf2Exact | src/math.ts:46-59 | n with 2^(k−1) < n ≤ 2^k is rounded to exactly 2^k |
| SdMath.RoundUpPowerOf2Examples | src/math.ts:46-48 | the documented examples 15 → 16, 16 → 16 and 17 → 32 |
| SdMath.AlignUpIsSmallestMultiple | src/math.ts:62-67 | for a power of two a and 0 ≤ v with v + a − 1 an int32 value, alignUp(v, a) is a multiple of a in [v, v + a), which makes it the smallest multiple ≥ v |
| SdMath.AlignDownIsLargestMultiple | src/math.ts:70-75 | for a power of two a ≤ 2^31 and an int32 value v ≥ 0, alignDown(v, a) is a multiple of a in (v − a, v], which makes it the largest multiple ≤ v |
| SdMath.AlignDownUpBracket | src/math.ts:62-75 | alignDown(v) ≤ v ≤ alignUp(v); the two are equal exactly when v is a multiple of a, and exactly then alignUp(v) == v |
| SdMath.VectorTypeSizes | src/math.ts:142-194 | each of Vec2, Vec3, Vec4, Quat, Mat3 and Mat4 has byteSize == 4 × elementCount, with element counts 2, 3, 4, 4, 9 and 16 |
| SdMath.IdentityDiagonal | src/math.ts:173-194 | the Mat3 and Mat4 identity constants hold ones exactly on the diagonal |
| SdMath.VectorArrayItem | src/math.ts:196-200 | the window vectorArrayItem selects never reaches past the array |
| SdMath.VectorArrayItemWindow | src/math.ts:196-200 | for an item inside the array, the window covers exactly the elements [count·i, count·(i+1)) |
| SdMath.VectorArrayItemsAdjacent | src/math.ts:196-200 | item i ends exactly where item i + 1 begins |
| BufferLayout.MakeStandardVertexBufferLayout | geometry/vertex-buffer/src/buffer-layout.ts:81-107 | the loop that threads offset and maxElemSize through the attributes returns the layout of the fold `PlaceAll`, with the stride computed from them |
| BufferLayout.MakeLayoutStructFields | geometry/vertex-buffer/src/buffer-layout.ts:70-79 | one struct field per attribute, in order, with the attribute's numeric type, its element count and a copy of it |
| BufferLayout.AlignFieldOnSizeIsAlignUp | geometry/vertex-buffer/src/buffer-layout.ts:61-64 | alignFieldOnSize is alignUp on roundUpPowerOf2(size), so it returns the smallest multiple of that power of two that is ≥ offset |
| BufferLayout.PlaceAllShape | geometry/vertex-buffer/src/buffer-layout.ts:85-100 | the fold places one attribute per input and no other, and attribute i is input i placed at its offset |
| BufferLayout.LayoutAligned | geometry/vertex-buffer/src/buffer-layout.ts:85-100 | every attribute's byte offset is ≥ 0 and a multiple of roundUpPowerOf2 of its element size, which equals the element size for the registry's types |
| BufferLayout.LayoutDisjoint | geometry/vertex-buffer/src/buffer-layout.ts:85-100 | every attribute starts at or after the end of every earlier one, so no two attributes overlap |
| BufferLayout.LayoutPreservesOrder | geometry/vertex-buffer/src/buffer-layout.ts:85-100 | the layout has the input's length and order; attribute i carries input i's type, count and a copy of it, and sizeBytes is the field's size |
| BufferLayout.LayoutStride | geometry/vertex-buffer/src/buffer-layout.ts:102-104 | the stride is ≥ the end of every attribute and lies below that cursor plus max(4, largest element size); it is a multiple of that maximum, so it is always a multiple of 4 |
| BufferLayout.StandardLayoutWithinStride | geometry/vertex-buffer/src/buffer-layout.ts:81-107 | every attribute of the standard layout starts at ≥ 0 and ends within the stride |
| BufferLayout.VertexBytesInside | geometry/vertex-buffer/src/buffer-layout.ts:42-44 | every byte of every attribute of vertex v < n lies inside the vertexCount × stride bytes that bytesRequiredForVertexCount(n) returns |
| BufferLayout.LayoutExample | geometry/vertex-buffer/src/buffer-layout.ts:81-107 | [Float32 × 3, UInt8 × 1] gets offsets 0 and 12, sizes 12 and 1, and stride 16 |
| BufferLayout.VertexBufferLayout.AttrByRole | geometry/vertex-buffer/src/buffer-layout.ts:46-48 | the result is present exactly when some attribute has the role; it is then the first such attribute |
| BufferLayout.VertexBufferLayout.AttrByIndex | geometry/vertex-buffer/src/buffer-layout.ts:50-52 | attributes[i] for 0 ≤ i < length, and absent for every other index |
| BufferLayout.VertexBufferLayout.HasAttributeWithRole | geometry/vertex-buffer/src/buffer-layout.ts:54-56 | true exactly when some attribute has the role |
| BufferLayout.AttrByRoleIsAtIndex | geometry/vertex-buffer/src/buffer-layout.ts:46-56 | a found attribute is attrByIndex(i) for some i, and hasAttributeWithRole agrees with attrByRole |
| BufferLayout.MaxElementSizeIsMax | geometry/vertex-buffer/src/buffer-layout.ts:87 | the running Math.max is the largest element size of any attribute, and one of the attributes attains it |
| FixedMultiArrays.FixedMultiArray.constructor | container/structured-array/src/fixed-multi-array.ts:16-28 | for capacity > 0 and a non-empty, non-overlapping layout: a zero-filled buffer of capacity × struct-size bytes, and view i starting at capacity × byteOffset_i with capacity × count_i elements |
| FixedMultiArrays.FixedMultiArray.FieldCount | container/structured-array/src/fixed-multi-array.ts:30 | the number of cached views is the number of layout fields |
| FixedMultiArrays.FixedMultiArray.Field | container/structured-array/src/fixed-multi-array.ts:32-37 | field(i) is layout.posFields[i] |
| FixedMultiArrays.FixedMultiArray.Capacity | container/structured-array/src/fixed-multi-array.ts:39 | the capacity is positive and the buffer holds capacity structs; it is a constant field, so no method changes it |
| FixedMultiArrays.FixedMultiArray.IndexedFieldView | container/structured-array/src/fixed-multi-array.ts:45-50 | the cached view i: it starts at byte capacity × byteOffset_i, has capacity × count_i elements, and has the field's element size and array kind |
| FixedMultiArrays.FixedMultiArray.Clear | container/structured-array/src/fixed-multi-array.ts:41-43 | runs `clearArrayBuffer` as written: it raises exactly when the buffer length makes that function raise (not a multiple of 8 below 2^34), leaving every byte as it was; otherwise every byte is zero; the buffer, the layout and the cached views stay the same |
| FixedMultiArrays.ClearRaisesOnSingleFloat | container/structured-array/src/fixed-multi-array.ts:41-43 | capacity 1 with a single 4-byte Float field gives a buffer on which `clear()` raises |
| FixedMultiArrays.ViewBytes | container/structured-array/src/fixed-multi-array.ts:24-27 | a field's view covers the field's byte range scaled by the capacity |
| FixedMultiArrays.ViewsInsideBuffer | container/structured-array/src/fixed-multi-array.ts:24-27 | every view ends inside the backing buffer |
| FixedMultiArrays.ViewsDisjoint | container/structured-array/src/fixed-multi-array.ts:24-27 | views of different fields share no byte |
| FixedMultiArrays.ViewsAligned | container/structured-array/src/fixed-multi-array.ts:24-27 | every view starts on a multiple of its element size, as a typed-array view must |
| ContainerArray.TransferArrayBuffer | packages/container/src/array.ts:10-23 | returns a new buffer of exactly newByteLength bytes: old cut to that length, or old followed by zeros |
| ContainerArray.TransferShrinks | packages/container/src/array.ts:14-16 | with n < old length the result is exactly the first n bytes of old |
| ContainerArray.TransferGrows | packages/container/src/array.ts:18-22 | with n ≥ old length the result has n bytes; its prefix is old and its tail is zero |
| ContainerArray.TransferRoundTrip | packages/container/src/array.ts:10-23 | growing and then shrinking back to the old length gives the old bytes back |
| ContainerArray.ClearCoversBuffer | packages/container/src/array.ts:26-28 | below 2^34 bytes, where the int32 conversion of the double count is exact, the whole doubles and the remaining bytes (fewer than 8) cover exactly byteLength bytes |
| ContainerArray.ClearRaisesOnRaggedLengths | packages/container/src/array.ts:26-31 | below 2^34 bytes, `clearArrayBuffer` raises exactly when byteLength is not a multiple of 8 |
| ContainerArray.ClearRaisesOnWrappedCount | packages/container/src/array.ts:26-31 | a buffer of 2^34 bytes is a whole number of doubles, but the int32 conversion wraps numDoubles negative and the remainder view's constructor raises |
| ContainerArray.Float64ViewLength | packages/container/src/array.ts:30 | `new Float64Array(buffer)` succeeds exactly when byteLength is a multiple of 8, and then has byteLength / 8 elements |
| ContainerArray.ClearArrayBufferAsWritten | packages/container/src/array.ts:25-45 | as written, for any length: raises exactly when one of the two view constructors does (byteLength not a multiple of 8, or a wrapped negative numDoubles) and then leaves the buffer untouched; otherwise zeroes every byte |
| ContainerArray.ClearAsWrittenRejectsThirteenBytes | packages/container/src/array.ts:26-31 | a 13-byte buffer makes the Float64Array constructor fail, although the remainder loop was sized for its last 5 bytes |
| ContainerArray.ClearArrayBuffer | packages/container/src/array.ts:25-45 | as intended: every byte is zero afterwards, for a buffer of any length below 2^34 |
| ContainerArray.ZeroDoublesThenRest | packages/container/src/array.ts:37-44 | zeroing numDoubles doubles and then every byte after them leaves every byte zero |
| ContainerArray.CopyElementRange | packages/container/src/array.ts:48-53 | returns dest; dest[destOffset + i] == src[srcOffset + i] for i < count, and every other element is unchanged |
| ContainerArray.CopiedRangeFrame | packages/container/src/array.ts:48-53 | exactly the count elements from destOffset on take the source's values; all others keep theirs |
| ContainerArray.JsArray.Push | packages/container/src/array.ts:63 | push.apply appends the elements, in order |
| ContainerArray.AppendArrayInPlace | packages/container/src/array.ts:56-75 | returns dest, which becomes old dest followed by source, whatever the source length; the 65535-element blocks are invisible |
| ContainerArray.BlocksConcat | packages/container/src/array.ts:66-73 | cutting a sequence into blocks of at most the block size loses and reorders nothing |
| ContainerArray.FromCharCodes | packages/container/src/array.ts:86 | one character per byte, whose code is that byte |
| ContainerArray.ConvertBytesToString | packages/container/src/array.ts:78-93 | the joined string has one character per byte, and character i has code bytes[i]; the 65536-byte chunking is invisible |
| ContainerArray.BlockwiseConversion | packages/container/src/array.ts:78-93 | converting block by block and joining equals converting all bytes at once, for any block size |
| ContainerArray.OffsetOfIndexedIsProduct | packages/container/src/array.ts:122 | offsetOfIndexedVecN(i) == N·i while N·i is an int32 value |
| ContainerArray.CopyFromOffset | packages/container/src/array.ts:113-115 | copyVecNFromOffset returns the N elements from offset on |
| ContainerArray.CopyIndexed | packages/container/src/array.ts:102-105 | copyIndexedVecN returns the N elements of item i, from N·i on |
| ContainerArray.SetAtOffset | packages/container/src/array.ts:117-120 | setVecNAtOffset writes v from offset on and changes no other element |
| ContainerArray.SetIndexed | packages/container/src/array.ts:107-111 | setIndexedVecN writes v at [N·i, N·i + N) and changes no other element |
| ContainerArray.WrittenReadsBack | packages/container/src/array.ts:107-120 | reading back the written range gives v, and every element outside it is unchanged |
| ContainerArray.IndexedIsAtOffset | packages/container/src/array.ts:102-122 | the indexed accessors are the offset accessors at offsetOfIndexedVecN(i) |
| ContainerArray.SetThenCopyIndexed | packages/container/src/array.ts:102-111 | setIndexedVecN(d, i, v) followed by copyIndexedVecN(d, i) returns v, and the other items keep their values |
| ContainerArray.RefIndexedWindow | packages/container/src/array.ts:98-100 | for an item inside the array, refIndexedVecN's window starts at N·i and has N elements |
| AssetParsers.Normalize | src/asset/parsers.ts:16-17 | lower-casing then trimming leaves no upper-case letter |
| AssetParsers.NormalizeIdempotent | src/asset/parsers.ts:16-17 | normalizing twice is normalizing once |
| AssetParsers.RegisterExtension | src/asset/parsers.ts:15-21 | fails its assertion exactly when the normalized extension or MIME type is empty; otherwise the normalized extension is in the new table |
| AssetParsers.RegisterFailureMessage | src/asset/parsers.ts:18-19 | an empty extension is reported first, with its own message; then an empty MIME type |
| AssetParsers.RegisterKeepsWellFormed | src/asset/parsers.ts:15-20 | after a registration every key and value is still non-empty and normalized |
| AssetParsers.LookupExtension | src/asset/parsers.ts:23-26 | a lookup finds something exactly when the normalized extension is a key |
| AssetParsers.LookupAfterRegister | src/asset/parsers.ts:15-26 | after registering, every spelling that normalizes to the same extension finds the normalized MIME type |
| AssetParsers.RegisterLeavesOthers | src/asset/parsers.ts:20 | registering changes the lookup of no other normalized extension |
| AssetParsers.RegisterExample | src/asset/parsers.ts:15-26 | after registering (" PNG ", "Image/PNG"), a lookup of "png " returns "image/png" |
| AssetParsers.UnregisteredNotFound | src/asset/parsers.ts:23-26 | a lookup in the empty registry returns nothing |
| AssetParsers.ExtensionRegistry.RegisterFileExtension | src/asset/parsers.ts:15-21 | the table becomes the registration's new table, or stays as it was while the failed assertion's message is reported |
| AssetParsers.ExtensionRegistry.MimeTypeForFileExtension | src/asset/parsers.ts:23-26 | the MIME type stored under the normalized extension, or nothing when none is stored |
| AssetParser.RegisterExtension | src/asset/parser.ts:41-47 | lower-cases without trimming; fails exactly when the extension or the MIME type is empty; otherwise the lower-cased extension is a key |
| AssetParser.LookupMimeType | src/asset/parser.ts:49-52 | a lookup finds something exactly when the lower-cased, trimmed extension is a key |
| AssetParser.PaddedExtensionNeverFound | src/asset/parser.ts:41-52 | an extension registered with white space at either end is never matched by any lookup, because lookups trim |
| AssetParser.LookupIgnoresCase | src/asset/parser.ts:41-52 | an extension registered without surrounding white space is found by a query in any case |
| AssetParser.MapMimeType | src/asset/parser.ts:61-67 | fails exactly when the MIME type or the kind is empty; otherwise the lower-cased MIME type is a key |
| AssetParser.MapMimeTypeKeepsLower | src/asset/parser.ts:61-67 | every stored kind stays lower case |
| AssetParser.KindForMimeType | src/asset/parser.ts:69-70 | finds a kind exactly when the lower-cased MIME type is a key |
| AssetParser.KindForAsset | src/asset/parser.ts:72-86 | a non-empty explicit kind is returned lower-cased |
| AssetParser.ExplicitKindWins | src/asset/parser.ts:73-75 | a non-empty explicit kind decides, whatever the MIME type and the URI |
| AssetParser.MimeTypeBeforeURI | src/asset/parser.ts:76-78 | without a kind, a non-empty MIME type decides through the kind table, even when it finds nothing |
| AssetParser.URIFallback | src/asset/parser.ts:79-84 | without a kind or MIME type, the URI's extension is mapped to a MIME type and then to a kind |
| AssetParser.NothingToGoOn | src/asset/parser.ts:72-86 | with no kind, MIME type or URI, no kind is found |
| AssetParser.FoundKindIsLower | src/asset/parser.ts:72-86 | every kind found is lower case, so a parser registered under a kind with an upper-case letter is never dispatched to |
| AssetParser.Decide | src/asset/parser.ts:16-31 | an asset with an item passes through; otherwise the parser of the found kind is dispatched to exactly when one is registered |
| AssetParser.RejectionMessages | src/asset/parser.ts:21-30 | with no kind the rejection is "Cannot determine asset kind…"; with a kind that has no parser, "No parser registered…" naming the kind |
| AssetParser.AssetRegistry.RegisterParser | src/asset/parser.ts:10-13 | the parser for the kind replaces any earlier one; the other tables are unchanged |
| AssetParser.AssetRegistry.RegisterFileExtension | src/asset/parser.ts:41-47 | the extension table becomes the registration's table, or stays as it was while the failure is reported; the other tables are unchanged |
| AssetParser.AssetRegistry.MapMimeTypeToAssetKind | src/asset/parser.ts:61-67 | the kind table becomes the mapping's table, or stays as it was while the failure is reported; kinds stay lower case |
| AssetParser.AssetRegistry.AssetParser | src/asset/parser.ts:16-31 | the outcome is the decision for the asset; the found kind is written into asset.kind only when the asset had no item; the item is unchanged |
| ModelParser.GetMeshDependency | src/asset/parsers/model.ts:25-36 | the "mesh" dependency when it has kind "mesh" and holds a geometry, and nothing otherwise |
| ModelParser.LoadedMaterial | src/asset/parsers/model.ts:53-62 | only a dependency of kind "material" whose item is a non-null object yields a material |
| ModelParser.PlaceAt | src/asset/parsers/model.ts:66 | `materials[index] = item` replaces element index or grows the array with holes up to it; an index ≥ 2^32 − 1 leaves the elements alone |
| ModelParser.ParsedModel | src/asset/parsers/model.ts:38-97 | a success is always a model |
| ModelParser.ParseModel | src/asset/parsers/model.ts:38-97 | the loop over dependency names rejects exactly as ParsedModel does, leaving asset.item alone; otherwise it stores ParsedModel's model in asset.item |
| ModelParser.ParsedModelSucceeds | src/asset/parsers/model.ts:40-50 | parsing succeeds exactly when there are dependencies with a proper "mesh" one; a missing dependency list and a missing mesh get their own messages; the model's geometry is the mesh's item |
| ModelParser.AppendedInOrder | src/asset/parsers/model.ts:71-75 | without an index map the materials are the loaded materials in dependency order, with no holes |
| ModelParser.PlacedByIndex | src/asset/parsers/model.ts:63-70 | with an index map, element i holds the last loaded material whose entry is i, or a hole; every material placed at an array index lies inside the array |
| ModelParser.IgnoredDependency | src/asset/parsers/model.ts:53-85 | a dependency that is not a loaded material (missing, another kind, or an item that is not an object) leaves the materials unchanged |

## Left out

- The I/O and async plumbing of the asset loader is left out: promises, blob
  readers, `JSON.parse`, `console.warn`, the generic parsers and the
  `lib.process` chaining. A settled promise is a `Result` or a `Decision`.
- `io.fileExtensionOfURL` is a parameter (`extensionOf`) of
  `AssetParser.KindForAsset`. `mimeTypeForURL` in src/asset/parsers.ts is
  that function followed by a lookup, and is not modelled separately.
- `parseModel`'s `noMaterialIndexes` flag only decides whether a warning is
  logged, so it is not modelled.
- The dependency iteration order is taken as given: `DependencyTable.names`
  stands for `Object.getOwnPropertyNames`.
- ModelParser.TargetIndex: a material index map entry is an integer here. A
  fractional number would become a plain property, not an array element.
- JsString.ToLower: lower-cases ASCII letters only. `toLowerCase` on other
  Unicode letters is not modelled.
- The typed-array element encodings are left out: float rounding, clamping,
  and integer wrap-around on store. The vector accessors are generic over
  the element type.
- `refIndexedVecN` and `vectorArrayItem` return `subarray` views that alias
  the data. They are modelled as index windows (`TypedView.Window`), not as
  shared objects.
- ContainerArray.CopyElementRange: reads its source as a value, so a source
  that aliases dest is not modelled.
- ContainerArray.TransferArrayBuffer: requires 0 ≤ newByteLength < 2^31. With
  a negative length, `| 0` and `slice` count from the end of the buffer; this
  is not modelled.
- ContainerArray.SetIndexed: requires N·i < 2^31, where `| 0` is the identity.
- ContainerArray.CopyIndexed: requires N·i < 2^31, where `| 0` is the identity.
- ContainerArray.OffsetOfIndexedIsProduct: proved for N·i < 2^31 only, where
  `| 0` is the identity.
- ContainerArray.ClearArrayBuffer: requires a byte length below 2^34, where
  `(byteLength / 8) | 0` is exact; the as-written member covers every length.
  Both model the loop branch; the `fill` branch ends with the same bytes zero.
- AssetParser.Decide: the `parsers` table is a plain object in the source, so
  its lookup also finds inherited names such as "constructor" and
  "__proto__". The model's map has no inherited entries: for those kinds it
  rejects with "No parser registered", where the source resolves or throws.
- AssetParser.AssetRegistry.RegisterParser: registering the kind "__proto__"
  replaces the plain object's prototype in the source instead of adding an
  entry; inherited property names are not modelled.
- AssetParser.AssetRegistry.AssetParser: inherits Decide's gap; inherited
  property names of the `parsers` object are not modelled.
- SdMath.RoundUpPowerOf2Bounds: proved for 1 ≤ n ≤ 2^30. Above that the
  int32 arithmetic overflows and gives a negative number, as in the source.
- SdMath.AlignUpIsSmallestMultiple: proved for values inside the int32 range,
  where the bit operations do exactly that.
- SdMath.AlignDownIsLargestMultiple: proved for values inside the int32
  range, where the bit operations do exactly that.
- BufferLayout.LayoutAligned: proved for attributes of the registry's numeric
  types (element size 1, 2, 4 or 8) whose total size with padding stays under
  2^30 bytes. Beyond that the int32 `&` wraps around.
- BufferLayout.LayoutDisjoint: proved under the same bound as LayoutAligned.
- BufferLayout.LayoutStride: proved under the same bound as LayoutAligned.
- BufferLayout.StandardLayoutWithinStride: proved under the same bound as
  LayoutAligned.
- The vertex field helpers in `./field` are not part of this model. Here a
  field's element size is its numeric type's byte size, and its size is that
  times its element count.
- `packStructFields`, `createStructuredArray` and the structured-storage
  package are not part of this model. `FixedMultiArray` takes the computed
  layout. It requires the layout's fields to be aligned, to lie within the
  struct size and not to overlap. It assumes the backing store has
  capacity × struct-size bytes.
- Growable buffers (`ensureCapacity`, rebase signalling) are not among the
  files modelled. The only growth primitive shown is `transferArrayBuffer`.
- Left out as outside the core: the floating-point and random parts of
  src/math.ts (`deg2rad`, `rad2deg`, `clamp01`, `intRandom*`, `Rect`), the
  WebGL files, the rigid-body simulation, and `src/geometry/vertex-buffer.ts`.
  The Float and Double limits are kept as exact integers.

## Findings

| source | as written | input that shows it | evidently intended | confidence | as-written member | corrected member |
|---|---|---|---|---|---|---|
| packages/container/src/array.ts:30 | `new Float64Array(data)` is built over the whole buffer before anything is zeroed. It throws a RangeError when byteLength is not a multiple of 8, so the buffer is never cleared. | a 13-byte buffer: 1 whole double and 5 remaining bytes, which the remainder loop was written for. `FixedMultiArray.clear` (container/structured-array/src/fixed-multi-array.ts:42) reaches it, e.g. with capacity 1 and a single Float field (4 bytes) | zero the whole doubles, then the remaining bytes, for any byte length | high; not executed | ContainerArray.ClearArrayBufferAsWritten | ContainerArray.ClearArrayBuffer |
