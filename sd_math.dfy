/**
 * General-purpose integer helpers the layout code depends on: rounding up to
 * a power of two, aligning up and down to a power of two, clamping, and the
 * element window of one vector inside a flat array of vectors.
 */
module SdMath {
  import opened JsBits
  import opened TypedView
  import Numeric

  /** `Math.max(min, Math.min(max, n))`, for integral numbers. */
  function Clamp(n: int, min: int, max: int): (r: int)
    ensures min <= max ==> min <= r <= max
    ensures min <= n <= max ==> r == n
    ensures max < min ==> r == min
  {
    var upper := if max < n then max else n;
    if min > upper then min else upper
  }

  /**
   * The smallest power of two >= n, by smearing the highest set bit of n - 1
   * into every lower bit position with int32 `|` and `>>`.
   */
  function RoundUpPowerOf2(n: int): int {
    if n <= 0 then 1
    else SmearFrom(ToInt32(n) - 1, 1) + 1
  }

  /** `n |= n >> j` */
  function OrShifted(n: int, j: nat): int
    requires j < 32
  {
    Or(n, Shr(n, j))
  }

  /** The or-shift steps `n |= n >> j` for j = 1, 2, 4, 8, 16 of roundUpPowerOf2, from shift j on. */
  function SmearFrom(n: int, j: nat): int
    requires j >= 1
    decreases 32 - j
  {
    if j >= 32 then n else SmearFrom(OrShifted(n, j), 2 * j)
  }

  /** `(val + alignmentPow2 - 1) & ~(alignmentPow2 - 1)` */
  function AlignUp(val: int, alignmentPow2: int): int {
    And(val + alignmentPow2 - 1, Not(alignmentPow2 - 1))
  }

  /** `val & ~(alignmentPow2 - 1)` */
  function AlignDown(val: int, alignmentPow2: int): int {
    And(val, Not(alignmentPow2 - 1))
  }

  // ---- roundUpPowerOf2

  lemma RoundUpPowerOf2NonPositive(n: int)
    requires n <= 0
    ensures RoundUpPowerOf2(n) == 1
  {}

  /** The number of bits needed to write x. */
  function BitLength(x: nat): (k: nat)
    ensures x == 0 ==> k == 0
    ensures x > 0 ==> k >= 1 && Pow2(k - 1) <= x < Pow2(k)
  {
    if x == 0 then 0 else 1 + BitLength(x / 2)
  }

  /** On a non-negative int32 value, `n | (n >> j)` is a bitwise or of naturals. */
  lemma OrShiftedOfNonNegative(x: int, j: nat, k: nat)
    requires 1 <= j < 32 && k <= 31 && 0 <= x < Pow2(k)
    ensures OrShifted(x, j) == BitOr(x, DropLowBits(x, j)) < Pow2(k)
  {
    assert Pow2(k) <= TWO_31 by {
      Pow2Wide();
      Pow2Monotonic(k, 31);
    }
    ConversionsOfNonNegative(x);
    DropLowBitsIsDiv(x, j);
    OrOfNonNegative(x, DropLowBits(x, j), k);
  }

  /** The lowest set bit of a run that started at bit m, after a shift by j. */
  function RunAfterShift(m: nat, j: nat): nat {
    if m <= j then 0 else m - j
  }

  /**
   * One smearing step on a k-bit natural number whose bits [m, k) are all
   * set: afterwards the bits [m - j, k) are set (all bits when m <= j).
   */
  lemma BitOrShiftedTopBits(x: nat, k: nat, m: nat, j: nat)
    requires 1 <= j && m <= k
    requires Pow2(k) - Pow2(m) <= x < Pow2(k)
    requires m == 0 || j <= k - m
    ensures Pow2(k) - Pow2(RunAfterShift(m, j)) <= BitOr(x, DropLowBits(x, j)) < Pow2(k)
  {
    BitOrUpperBound(x, DropLowBits(x, j), k);
    if m == 0 {
      BitOrLowerBound(x, DropLowBits(x, j));
    } else if j <= m {
      SmearStepLongRun(x, k, m, j);
    } else {
      SmearStepShortRun(x, k, m, j);
    }
  }

  /** The smearing step when the run of set bits is at least as long as the shift. */
  lemma SmearStepLongRun(x: nat, k: nat, m: nat, j: nat)
    requires 1 <= j <= m <= k && j <= k - m
    requires Pow2(k) - Pow2(m) <= x < Pow2(k)
    ensures Pow2(k) - Pow2(m - j) <= BitOr(x, DropLowBits(x, j))
  {
    ShiftTopBits(x, k, m, j);
    BitOrTopBits(x, DropLowBits(x, j), k, m, k - j, m - j);
  }

  /** The smearing step when the shift is longer than the remaining low bits. */
  lemma SmearStepShortRun(x: nat, k: nat, m: nat, j: nat)
    requires 1 <= m < j <= k - m
    requires Pow2(k) - Pow2(m) <= x < Pow2(k)
    ensures Pow2(k) - Pow2(0) <= BitOr(x, DropLowBits(x, j))
  {
    Pow2Monotonic(m, j);
    var b := DropLowBits(x, j);
    var t: nat := k - j;
    ShiftAllTopBits(x, k, j, b, t);
    BitOrLowOnes(x, b, k, m, t);
  }

  /** Dropping j low bits from a k-bit number whose bits [j, k) are set leaves k - j one-bits. */
  lemma ShiftAllTopBits(x: nat, k: nat, j: nat, b: nat, t: nat)
    requires j <= k && t == k - j && b == DropLowBits(x, j)
    requires Pow2(k) - Pow2(j) <= x < Pow2(k)
    ensures b == Pow2(t) - 1
  {
    ShiftTopBits(x, k, j, j);
    assert Pow2(j - j) == 1;
  }

  lemma RoundUpIsSmear(n: int)
    requires 1 <= n < TWO_31
    ensures RoundUpPowerOf2(n) == SmearFrom(n - 1, 1) + 1
  {
    ConversionsOfNonNegative(n);
    RoundUpUnfold(n, n);
  }

  /** roundUpPowerOf2 of a positive n smears ToInt32(n) - 1. */
  lemma RoundUpUnfold(n: int, t: int)
    requires n >= 1 && t == ToInt32(n)
    ensures RoundUpPowerOf2(n) == SmearFrom(t - 1, 1) + 1
  {}

  /**
   * The smearing steps from shift j on turn a k-bit number whose bits [m, k)
   * are set into k one-bits, provided the run of set bits is at least j long.
   */
  lemma {:induction false} SmearFillsBits(x: int, k: nat, m: nat, j: nat)
    requires 1 <= j && m <= k <= 31
    requires Pow2(k) - Pow2(m) <= x < Pow2(k)
    requires m == 0 || j <= k - m
    ensures SmearFrom(x, j) == Pow2(k) - 1
    decreases 32 - j
  {
    if j >= 32 {
      assert m == 0;
    } else {
      Pow2Monotonic(m, k);
      OrShiftedOfNonNegative(x, j, k);
      BitOrShiftedTopBits(x, k, m, j);
      SmearFillsBits(OrShifted(x, j), k, RunAfterShift(m, j), 2 * j);
    }
  }

  /** A number below 2^30 needs at most 30 bits. */
  lemma BitLengthBelow30(x: nat)
    requires x < 0x4000_0000
    ensures BitLength(x) <= 30
  {
    var k := BitLength(x);
    if k > 0 {
      Pow2Wide();
      Pow2Order(k - 1, 30);
    }
  }

  /** Smearing x fills every bit below its bit length. */
  lemma SmearOfBitLength(x: nat)
    requires x < 0x4000_0000
    ensures SmearFrom(x, 1) == Pow2(BitLength(x)) - 1
  {
    var k := BitLength(x);
    BitLengthBelow30(x);
    if k > 0 {
      assert Pow2(k) - Pow2(k - 1) == Pow2(k - 1);
    }
    SmearFillsBits(x, k, if k == 0 then 0 else k - 1, 1);
  }

  /** For 1 <= n <= 2^30, roundUpPowerOf2(n) is 2 to the bit length of n - 1. */
  lemma RoundUpIsPow2OfBitLength(n: int)
    requires 1 <= n <= 0x4000_0000
    ensures BitLength(n - 1) <= 30
    ensures RoundUpPowerOf2(n) == Pow2(BitLength(n - 1))
  {
    BitLengthBelow30(n - 1);
    SmearOfBitLength(n - 1);
    RoundUpIsSmear(n);
  }

  /** For 1 <= n <= 2^30 the result is the smallest power of two that is >= n. */
  lemma RoundUpPowerOf2Bounds(n: int)
    requires 1 <= n <= 0x4000_0000
    ensures var r := RoundUpPowerOf2(n);
      IsPow2(r) && n <= r < 2 * n
    ensures forall k: nat :: n <= Pow2(k) ==> RoundUpPowerOf2(n) <= Pow2(k)
  {
    RoundUpIsPow2OfBitLength(n);
    var k := BitLength(n - 1);
    assert RoundUpPowerOf2(n) == Pow2(k);
    if k > 0 {
      assert Pow2(k) == 2 * Pow2(k - 1);
      forall k': nat | n <= Pow2(k') ensures Pow2(k) <= Pow2(k') {
        Pow2Order(k - 1, k');
        Pow2Order(k, k');
      }
    }
  }

  /** A power of two is its own rounding, so rounding is idempotent. */
  lemma RoundUpPowerOf2Identity(k: nat)
    requires k <= 30
    ensures RoundUpPowerOf2(Pow2(k)) == Pow2(k)
    ensures RoundUpPowerOf2(RoundUpPowerOf2(Pow2(k))) == RoundUpPowerOf2(Pow2(k))
  {
    Pow2Values();
    Pow2Monotonic(k, 30);
    RoundUpPowerOf2Bounds(Pow2(k));
  }

  /** n is rounded to 2^k exactly when 2^(k-1) < n <= 2^k. */
  lemma RoundUpPowerOf2Exact(n: int, k: nat)
    requires 1 <= k <= 30 && Pow2(k - 1) < n <= Pow2(k)
    ensures RoundUpPowerOf2(n) == Pow2(k)
  {
    Pow2Values();
    Pow2Monotonic(k, 30);
    RoundUpPowerOf2Bounds(n);
    var r := RoundUpPowerOf2(n);
    var j: nat :| r == Pow2(j);
    Pow2Order(j, k - 1);
    Pow2Order(j, k);
  }

  lemma RoundUpPowerOf2Examples()
    ensures RoundUpPowerOf2(15) == 16 && RoundUpPowerOf2(16) == 16 && RoundUpPowerOf2(17) == 32
  {
    Pow2Values();
    assert Pow2(5) == 32;
    RoundUpPowerOf2Exact(15, 4);
    RoundUpPowerOf2Exact(16, 4);
    RoundUpPowerOf2Exact(17, 5);
  }

  // ---- alignUp, alignDown

  /** `~(2^k - 1)` is -2^k, whose 32-bit pattern has the bits [k, 32) set. */
  lemma NotLowMask(k: nat)
    requires k <= 31
    ensures Not(Pow2(k) - 1) == -(Pow2(k) as int)
    ensures ToUint32(-(Pow2(k) as int)) == TWO_32 - Pow2(k)
  {
    Pow2Values();
    Pow2Monotonic(k, 31);
    ConversionsOfNonNegative(Pow2(k) - 1);
    DivModUnique(-(Pow2(k) as int), TWO_32, -1, TWO_32 - Pow2(k));
  }

  /** Anding a 32-bit value with the bits [k, 32) clears its low k bits. */
  lemma BitAndHighMask32(y: nat, k: nat)
    requires y < TWO_32 && k <= 31
    ensures TWO_32 - Pow2(k) >= 0 && BitAnd(y, TWO_32 - Pow2(k)) == y - y % Pow2(k)
  {
    Pow2Values();
    BitAndHighMask(y, 32, k);
  }

  /** `y & ~(2^k - 1)` clears the low k bits of a non-negative int32 value. */
  lemma AndNotLowMask(y: int, k: nat)
    requires 0 <= y < TWO_31 && k <= 31
    ensures And(y, Not(Pow2(k) - 1)) == y - y % Pow2(k)
  {
    NotLowMask(k);
    ConversionsOfNonNegative(y);
    BitAndHighMask32(y, k);
    var cleared := y - y % Pow2(k);
    ModIsSmaller(y, Pow2(k));
    ConversionsOfNonNegative(cleared);
  }

  /** A multiple of a can be recognised by its remainder. */
  lemma RoundedDownIsMultiple(y: int, a: int)
    requires a > 0
    ensures (y - y % a) % a == 0
  {
    DivModUnique(y - y % a, a, y / a, 0);
  }

  /** A power of two that fits in an int32 value has an exponent below 32. */
  lemma Pow2ExponentBelow32(a: int) returns (k: nat)
    requires IsPow2(a) && a <= TWO_31
    ensures a == Pow2(k) && k <= 31
  {
    k :| a == Pow2(k);
    Pow2Values();
    Pow2Order(k, 31);
  }

  /**
   * For a power of two a and 0 <= v, alignUp gives the smallest multiple of a
   * that is >= v, as long as v + a - 1 is still an int32 value.
   */
  lemma AlignUpIsSmallestMultiple(v: int, a: int)
    requires IsPow2(a) && 0 <= v && v + a - 1 < TWO_31
    ensures var r := AlignUp(v, a);
      r % a == 0 && v <= r < v + a
  {
    var k := Pow2ExponentBelow32(a);
    var y := v + a - 1;
    MaskRoundsDown(y, a, k);
    assert AlignUp(v, a) == And(y, Not(a - 1));
    RoundedDownBracket(y, a);
  }

  /**
   * For a power of two a <= 2^31 and 0 <= v < 2^31, alignDown gives the
   * largest multiple of a that is <= v.
   */
  lemma AlignDownIsLargestMultiple(v: int, a: int)
    requires IsPow2(a) && a <= TWO_31 && 0 <= v < TWO_31
    ensures var r := AlignDown(v, a);
      r % a == 0 && r <= v < r + a
  {
    var k := Pow2ExponentBelow32(a);
    MaskRoundsDown(v, a, k);
    RoundedDownBracket(v, a);
  }

  /** Masking off the low k bits of a non-negative int32 value rounds it down to a multiple of 2^k. */
  lemma MaskRoundsDown(y: int, a: int, k: nat)
    requires 0 <= y < TWO_31 && k <= 31 && a == Pow2(k)
    ensures And(y, Not(a - 1)) == y - y % a
  {
    AndNotLowMask(y, k);
  }

  /** y rounded down to a multiple of a is the multiple of a just at or below y. */
  lemma RoundedDownBracket(y: int, a: int)
    requires a > 0
    ensures var r := y - y % a; r % a == 0 && r <= y < r + a
  {
    RoundedDownIsMultiple(y, a);
  }
  /** Two multiples of a closer than a are equal. */
  lemma CloseMultiplesAreEqual(x: int, y: int, a: int)
    requires a > 0 && x % a == 0 && y % a == 0 && x <= y < x + a
    ensures x == y
  {
    var qx, qy := x / a, y / a;
    assert y - x == a * (qy - qx);
    MulAwayFromZero(a, qy - qx);
  }

  /** alignDown(v) <= v <= alignUp(v), with equality exactly when v is aligned. */
  lemma AlignDownUpBracket(v: int, a: int)
    requires IsPow2(a) && 0 <= v && v + a - 1 < TWO_31
    ensures AlignDown(v, a) <= v <= AlignUp(v, a)
    ensures AlignDown(v, a) == AlignUp(v, a) <==> v % a == 0
    ensures v % a == 0 <==> AlignUp(v, a) == v
  {
    var k: nat :| a == Pow2(k);
    AlignUpIsSmallestMultiple(v, a);
    AlignDownIsLargestMultiple(v, a);
    var up, down := AlignUp(v, a), AlignDown(v, a);
    if v % a == 0 {
      CloseMultiplesAreEqual(v, up, a);
      CloseMultiplesAreEqual(down, v, a);
    }
  }

  // ---- Float vector types

  /**
   * A vector or matrix type: its number of float32 elements and its size in
   * bytes; zero/one/identity hold its constant element values.
   */
  datatype VectorType = VectorType(elementCount: nat, byteSize: nat, constant: seq<int>)

  const Vec2: VectorType := VectorType(2, Numeric.Float.byteSize * 2, [0, 0])
  const Vec3: VectorType := VectorType(3, Numeric.Float.byteSize * 3, [0, 0, 0])
  const Vec4: VectorType := VectorType(4, Numeric.Float.byteSize * 4, [0, 0, 0, 0])
  const Quat: VectorType := VectorType(4, Numeric.Float.byteSize * 4, [0, 0, 0, 1])
  const Mat3: VectorType := VectorType(9, Numeric.Float.byteSize * 9, Identity(3))
  const Mat4: VectorType := VectorType(16, Numeric.Float.byteSize * 16, Identity(4))

  const VectorTypes: seq<VectorType> := [Vec2, Vec3, Vec4, Quat, Mat3, Mat4]

  /** The row-major n by n identity matrix. */
  function Identity(n: nat): (m: seq<int>)
    ensures |m| == n * n
    ensures forall i :: 0 <= i < |m| ==> m[i] == (if i % n == i / n then 1 else 0)
  {
    seq(n * n, i requires 0 <= i < n * n => if i % n == i / n then 1 else 0)
  }

  /** Every vector type is elementCount float32 values of 4 bytes, with a constant of that length. */
  lemma VectorTypeSizes()
    ensures forall t :: t in VectorTypes ==>
      t.byteSize == 4 * t.elementCount && |t.constant| == t.elementCount
    ensures Vec2.elementCount == 2 && Vec3.elementCount == 3 && Vec4.elementCount == 4
    ensures Quat.elementCount == 4 && Mat3.elementCount == 9 && Mat4.elementCount == 16
  {
    Numeric.ByteSizes();
  }

  /** The identity matrices have ones exactly on the diagonal. */
  lemma IdentityDiagonal()
    ensures Mat3.constant == [1, 0, 0, 0, 1, 0, 0, 0, 1]
    ensures Mat4.constant == [1, 0, 0, 0, 0, 1, 0, 0, 0, 0, 1, 0, 0, 0, 0, 1]
  {
  }

  /** `array.subarray(elementCount * index, elementCount * index + elementCount)` */
  function VectorArrayItem(arrayLength: nat, t: VectorType, index: int): (w: Window)
    ensures w.End() <= arrayLength
  {
    var fromElement := t.elementCount * index;
    Subarray(arrayLength, fromElement, fromElement + t.elementCount)
  }

  /** Item i of an array long enough to hold it covers exactly its own elements. */
  lemma VectorArrayItemWindow(arrayLength: nat, t: VectorType, index: int)
    requires 0 <= index && t.elementCount * (index + 1) <= arrayLength
    ensures var w := VectorArrayItem(arrayLength, t, index);
      w.start == t.elementCount * index && w.length == t.elementCount
      && forall e :: w.Covers(e) <==> t.elementCount * index <= e < t.elementCount * (index + 1)
  {
    assert t.elementCount * (index + 1) == t.elementCount * index + t.elementCount;
    MulNonneg(t.elementCount, index);
  }

  /** Items i and i + 1 are adjacent: one ends where the next begins. */
  lemma VectorArrayItemsAdjacent(arrayLength: nat, t: VectorType, index: int)
    requires 0 <= index && t.elementCount * (index + 2) <= arrayLength
    ensures VectorArrayItem(arrayLength, t, index).End() == VectorArrayItem(arrayLength, t, index + 1).start
  {
    assert t.elementCount * (index + 2) == t.elementCount * (index + 1) + t.elementCount;
    MulNonneg(t.elementCount, index + 1);
    VectorArrayItemWindow(arrayLength, t, index);
    VectorArrayItemWindow(arrayLength, t, index + 1);
  }
}
