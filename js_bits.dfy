/**
 * ECMAScript's 32-bit integer operators on integral numbers: ToInt32 and
 * ToUint32 conversions and the bitwise `|`, `&`, `~` and `>>` operators,
 * written over unbounded integers so that wrap-around is explicit.
 */
module JsBits {

  /** 2 to the power k. */
  function Pow2(k: nat): (r: nat)
    ensures r >= 1
  {
    if k == 0 then 1 else 2 * Pow2(k - 1)
  }

  /** The natural number x without its low j bits: x halved j times. */
  function DropLowBits(x: nat, j: nat): (r: nat)
    ensures r <= x
  {
    if j == 0 then x else DropLowBits(x / 2, j - 1)
  }

  /** Dropping j low bits is dividing by 2^j. */
  lemma {:induction false} DropLowBitsIsDiv(x: nat, j: nat)
    ensures DropLowBits(x, j) == x / Pow2(j)
  {
    if j > 0 {
      DropLowBitsIsDiv(x / 2, j - 1);
      DivDiv(x, 2, Pow2(j - 1));
    }
  }

  const TWO_32: int := 0x1_0000_0000
  const TWO_31: int := 0x8000_0000

  /** True when p is a (non-negative integral) power of two. */
  ghost predicate IsPow2(p: int) {
    exists k: nat :: p == Pow2(k)
  }

  /** ECMAScript ToUint32 on an integral number. */
  function ToUint32(x: int): (r: int)
    ensures 0 <= r < TWO_32
  {
    x % TWO_32
  }

  /** ECMAScript ToInt32 on an integral number (the `x | 0` idiom). */
  function ToInt32(x: int): (r: int)
    ensures -TWO_31 <= r < TWO_31
  {
    var u := ToUint32(x);
    if u >= TWO_31 then u - TWO_32 else u
  }

  /** Bitwise or of two natural numbers, bit by bit from the least significant. */
  function BitOr(a: nat, b: nat): nat
    decreases a + b
  {
    if a == 0 then b
    else if b == 0 then a
    else 2 * BitOr(a / 2, b / 2) + (if a % 2 == 1 || b % 2 == 1 then 1 else 0)
  }

  /** Bitwise and of two natural numbers. */
  function BitAnd(a: nat, b: nat): nat
    decreases a + b
  {
    if a == 0 || b == 0 then 0
    else 2 * BitAnd(a / 2, b / 2) + (if a % 2 == 1 && b % 2 == 1 then 1 else 0)
  }

  /** `a | b` */
  function Or(a: int, b: int): int {
    ToInt32(BitOr(ToUint32(a), ToUint32(b)))
  }

  /** `a & b` */
  function And(a: int, b: int): int {
    ToInt32(BitAnd(ToUint32(a), ToUint32(b)))
  }

  /** `~a` */
  function Not(a: int): int {
    -ToInt32(a) - 1
  }

  /** `a >> k` (sign-propagating; Dafny's `/` by a positive divisor floors) */
  function Shr(a: int, k: nat): int
    requires k < 32
  {
    ToInt32(a) / Pow2(k)
  }

  // ---- lemmas

  /** Conversions leave a non-negative int32 value as it is. */
  lemma ConversionsOfNonNegative(a: int)
    requires 0 <= a < TWO_31
    ensures ToUint32(a) == a && ToInt32(a) == a
  {
    DivModUnique(a, TWO_32, 0, a);
  }

  /** `|` on non-negative int32 operands is the bitwise or of the naturals. */
  lemma OrOfNonNegative(a: int, b: int, k: nat)
    requires k <= 31 && 0 <= a < Pow2(k) && 0 <= b < Pow2(k)
    ensures Or(a, b) == BitOr(a, b) < Pow2(k)
  {
    Pow2Wide();
    Pow2Monotonic(k, 31);
    ConversionsOfNonNegative(a);
    ConversionsOfNonNegative(b);
    BitOrUpperBound(a, b, k);
    ConversionsOfNonNegative(BitOr(a, b));
  }

  lemma {:induction false} Pow2Add(j: nat, k: nat)
    ensures Pow2(j + k) == Pow2(j) * Pow2(k)
  {
    if j > 0 {
      Pow2Add(j - 1, k);
    }
  }

  lemma {:induction false} Pow2Monotonic(j: nat, k: nat)
    requires j <= k
    ensures Pow2(j) <= Pow2(k)
  {
    if j < k {
      Pow2Monotonic(j, k - 1);
    }
  }

  lemma {:induction false} Pow2StrictlyMonotonic(j: nat, k: nat)
    requires j < k
    ensures Pow2(j) < Pow2(k)
  {
    if j < k - 1 {
      Pow2StrictlyMonotonic(j, k - 1);
    }
  }

  lemma Pow2Values()
    ensures Pow2(0) == 1 && Pow2(1) == 2 && Pow2(2) == 4 && Pow2(3) == 8
    ensures Pow2(4) == 16 && Pow2(8) == 256 && Pow2(16) == 65536
    ensures Pow2(30) == 0x4000_0000 && Pow2(31) == TWO_31 && Pow2(32) == TWO_32
  {
    assert Pow2(2) == 4;
    Pow2Add(2, 2);
    Pow2Add(4, 4);
    Pow2Add(8, 8);
    Pow2Add(16, 16);
    assert Pow2(32) == 2 * Pow2(31) == 4 * Pow2(30);
  }

  /**
   * Pow2 at the bit widths of the integer typed arrays: the slice of
   * Pow2Values that the callers need, so that their solver context stays small.
   */
  lemma Pow2Bytes()
    ensures Pow2(8) == 256 && Pow2(16) == 65536 && Pow2(32) == TWO_32
  {
    Pow2Values();
  }

  /**
   * Pow2 at the widths of int32 arithmetic: the slice of Pow2Values that the
   * callers need, so that their solver context stays small.
   */
  lemma Pow2Wide()
    ensures Pow2(30) == 0x4000_0000 && Pow2(31) == TWO_31 && Pow2(32) == TWO_32
  {
    Pow2Values();
  }

  /** Pow2 is strictly increasing, so it determines its exponent. */
  lemma Pow2Order(j: nat, k: nat)
    ensures Pow2(j) <= Pow2(k) <==> j <= k
    ensures Pow2(j) == Pow2(k) <==> j == k
  {
    if j < k {
      Pow2StrictlyMonotonic(j, k);
    } else if k < j {
      Pow2StrictlyMonotonic(k, j);
    }
  }

  lemma {:induction false} BitOrUpperBound(a: nat, b: nat, k: nat)
    requires a < Pow2(k) && b < Pow2(k)
    ensures BitOr(a, b) < Pow2(k)
    decreases a + b
  {
    if a != 0 && b != 0 {
      BitOrUpperBound(a / 2, b / 2, k - 1);
    }
  }

  lemma {:induction false} BitOrLowerBound(a: nat, b: nat)
    ensures a <= BitOr(a, b) && b <= BitOr(a, b)
    decreases a + b
  {
    if a != 0 && b != 0 {
      BitOrLowerBound(a / 2, b / 2);
    }
  }

  /** Oring a run of top bits with a run of low ones fills every bit below k. */
  lemma {:induction false} BitOrLowOnes(a: nat, b: nat, k: nat, m: nat, t: nat)
    requires m <= t <= k && b == Pow2(t) - 1
    requires Pow2(k) - Pow2(m) <= a < Pow2(k)
    ensures BitOr(a, b) == Pow2(k) - 1
    decreases t
  {
    if t == 0 {
      Pow2Order(m, 0);
    } else if a == 0 {
      Pow2Order(k, m);
    } else {
      assert b % 2 == 1 && b / 2 == Pow2(t - 1) - 1;
      var m' := if m == 0 then 0 else m - 1;
      assert Pow2(k - 1) - Pow2(m') <= a / 2 < Pow2(k - 1);
      BitOrLowOnes(a / 2, b / 2, k - 1, m', t - 1);
    }
  }

  /**
   * The bits [l, k) of `BitOr(a, b)` are all set, and none above, when a has
   * its bits [m, k) set, b has its bits [l, t) set, and l <= m <= t <= k.
   */
  lemma {:induction false} BitOrTopBits(a: nat, b: nat, k: nat, m: nat, t: nat, l: nat)
    requires l <= m <= t <= k
    requires Pow2(k) - Pow2(m) <= a < Pow2(k)
    requires Pow2(t) - Pow2(l) <= b < Pow2(t)
    ensures Pow2(k) - Pow2(l) <= BitOr(a, b) < Pow2(k)
    decreases k, 1
  {
    Pow2Monotonic(t, k);
    BitOrUpperBound(a, b, k);
    if l == 0 {
      assert b == Pow2(t) - 1;
      BitOrLowOnes(a, b, k, m, t);
    } else if a == 0 {
      Pow2Order(k, m);
      assert BitOr(a, b) == b;
    } else if b == 0 {
      Pow2Order(t, l);
      assert BitOr(a, b) == a;
    } else {
      BitOrTopBitsStep(a, b, k, m, t, l);
    }
  }

  lemma {:induction false} BitOrTopBitsStep(a: nat, b: nat, k: nat, m: nat, t: nat, l: nat)
    requires 0 < l <= m <= t <= k && 0 < a && 0 < b
    requires Pow2(k) - Pow2(m) <= a < Pow2(k)
    requires Pow2(t) - Pow2(l) <= b < Pow2(t)
    ensures Pow2(k) - Pow2(l) <= BitOr(a, b)
    decreases k, 0
  {
    HalveTopBits(a, k, m);
    HalveTopBits(b, t, l);
    BitOrTopBits(a / 2, b / 2, k - 1, m - 1, t - 1, l - 1);
    BitOrDoubles(a, b);
    assert Pow2(k) - Pow2(l) == 2 * (Pow2(k - 1) - Pow2(l - 1));
  }

  /** Halving a run of set top bits [m, k) gives the run [m - 1, k - 1). */
  lemma HalveTopBits(a: nat, k: nat, m: nat)
    requires 0 < m <= k
    requires Pow2(k) - Pow2(m) <= a < Pow2(k)
    ensures Pow2(k - 1) - Pow2(m - 1) <= a / 2 < Pow2(k - 1)
  {}

  /** Or of two positive numbers is at least twice the or of their halves. */
  lemma BitOrDoubles(a: nat, b: nat)
    requires 0 < a && 0 < b
    ensures 2 * BitOr(a / 2, b / 2) <= BitOr(a, b)
  {}

  /** Dividing by 2^j drops the low j bits of a run of set top bits. */
  lemma {:induction false} ShiftTopBits(a: nat, k: nat, m: nat, j: nat)
    requires j <= m <= k
    requires Pow2(k) - Pow2(m) <= a < Pow2(k)
    ensures Pow2(k - j) - Pow2(m - j) <= DropLowBits(a, j) < Pow2(k - j)
  {
    if j > 0 {
      HalveTopBits(a, k, m);
      ShiftTopBits(a / 2, k - 1, m - 1, j - 1);
    }
  }

  lemma DivDiv(a: nat, b: nat, c: nat)
    requires b > 0 && c > 0
    ensures a / b / c == a / (b * c)
  {
    var q, r := a / b, a % b;
    var q2, r2 := q / c, q % c;
    assert q == c * q2 + r2;
    assert a == b * q + r;
    assert b * q == b * (c * q2) + b * r2;
    assert b * (c * q2) == (b * c) * q2;
    MulBelow(b, r2, c);
    DivModUnique(a, b * c, q2, b * r2 + r);
  }

  /** b * r + b <= b * c when r < c */
  lemma MulBelow(b: nat, r: nat, c: nat)
    requires r < c && b > 0
    ensures b * r + b <= b * c
  {
    var e := c - r - 1;
    assert c == r + 1 + e;
    assert b * c == b * r + b + b * e;
  }

  lemma MulNonneg(x: int, y: int)
    requires x >= 0 && y >= 0
    ensures x * y >= 0
  {}

  lemma MulAwayFromZero(d: int, x: int)
    requires d > 0
    ensures x >= 1 ==> d * x >= d
    ensures x <= -1 ==> d * x <= -d
  {
    if x >= 1 {
      MulNonneg(d, x - 1);
    } else if x <= -1 {
      MulNonneg(d, -x - 1);
    }
  }

  /** Dividing by a positive number does not make a natural number larger. */
  lemma DivIsSmaller(x: nat, d: nat)
    requires d >= 1
    ensures 0 <= x / d <= x
  {
    var q := x / d;
    assert x == d * q + x % d;
    MulNonneg(d - 1, q);
    assert d * q == (d - 1) * q + q;
  }

  /** The remainder of a natural number is no larger than the number. */
  lemma ModIsSmaller(x: nat, d: nat)
    requires d >= 1
    ensures 0 <= x % d <= x
  {
    DivIsSmaller(x, d);
    MulNonneg(d, x / d);
  }

  /** Quotient and remainder are the only pair with a == d * q + r and 0 <= r < d. */
  lemma DivModUnique(a: int, d: int, q: int, r: int)
    requires d > 0 && 0 <= r < d && a == d * q + r
    ensures a / d == q && a % d == r
  {
    var q0, r0 := a / d, a % d;
    assert d * (q - q0) == r0 - r;
    MulAwayFromZero(d, q - q0);
  }

  /** Anding with a mask of the bits [k, w) clears the low k bits. */
  lemma {:induction false} BitAndHighMask(y: nat, w: nat, k: nat)
    requires k <= w && y < Pow2(w)
    ensures Pow2(k) <= Pow2(w) && BitAnd(y, Pow2(w) - Pow2(k)) == y - y % Pow2(k)
    decreases w, 1
  {
    Pow2Monotonic(k, w);
    if y == 0 {
      BitAndOfZero(Pow2(w) - Pow2(k), Pow2(k));
    } else if k == 0 {
      BitAndLowOnes(y, w);
    } else if k == w {
      BitAndEmptyMask(y, w);
    } else {
      BitAndHighMaskStep(y, w, k);
    }
  }

  /** Zero has no bits to keep. */
  lemma BitAndOfZero(mask: nat, p: nat)
    requires p > 0
    ensures BitAnd(0, mask) == 0 - 0 % p
  {}

  /** Anding with the empty mask of the bits [w, w) clears a w-bit number entirely. */
  lemma BitAndEmptyMask(y: nat, w: nat)
    requires y < Pow2(w)
    ensures BitAnd(y, Pow2(w) - Pow2(w)) == y - y % Pow2(w)
  {
    DivModUnique(y, Pow2(w), 0, y);
  }

  /** Anding a w-bit number with w one-bits keeps it. */
  lemma {:induction false} BitAndLowOnes(y: nat, w: nat)
    requires y < Pow2(w)
    ensures BitAnd(y, Pow2(w) - 1) == y
    decreases w
  {
    if y != 0 {
      var mask := Pow2(w) - 1;
      assert w > 0 && mask % 2 == 1 && mask / 2 == Pow2(w - 1) - 1;
      BitAndLowOnes(y / 2, w - 1);
    }
  }

  /** The high-mask property of y follows from that of y / 2, one bit narrower. */
  lemma {:induction false} BitAndHighMaskStep(y: nat, w: nat, k: nat)
    requires 0 < k < w && 0 < y && y < Pow2(w)
    ensures Pow2(k) <= Pow2(w) && BitAnd(y, Pow2(w) - Pow2(k)) == y - y % Pow2(k)
    decreases w, 0
  {
    Pow2StrictlyMonotonic(k, w);
    HalfBelow(y, w);
    BitAndHighMask(y / 2, w - 1, k - 1);
    var mask := Pow2(w) - Pow2(k);
    HighMaskHalves(w, k);
    var h, r := y / 2, (y / 2) % Pow2(k - 1);
    BitAndEvenMask(y, mask);
    assert BitAnd(h, mask / 2) == h - r;
    ModHalf(y, k);
    assert y % Pow2(k) == y % 2 + 2 * r;
  }

  /** An even mask keeps no low bit: anding is anding the halves, doubled. */
  lemma BitAndEvenMask(y: nat, mask: nat)
    requires y > 0 && mask > 0 && mask % 2 == 0
    ensures BitAnd(y, mask) == 2 * BitAnd(y / 2, mask / 2)
  {}

  /** A mask of the bits [k, w) with 0 < k is even, and halving it gives the bits [k - 1, w - 1). */
  lemma HighMaskHalves(w: nat, k: nat)
    requires 0 < k < w
    ensures var mask := Pow2(w) - Pow2(k);
      mask > 0 && mask % 2 == 0 && mask / 2 == Pow2(w - 1) - Pow2(k - 1)
  {
    Pow2StrictlyMonotonic(k, w);
  }

  /** Halving a w-bit number gives a (w - 1)-bit number. */
  lemma HalfBelow(y: nat, w: nat)
    requires 0 < w && y < Pow2(w)
    ensures y / 2 < Pow2(w - 1)
  {}

  lemma ModHalf(y: nat, k: nat)
    requires k > 0
    ensures y % Pow2(k) == y % 2 + 2 * ((y / 2) % Pow2(k - 1))
  {
    var q, r := (y / 2) / Pow2(k - 1), (y / 2) % Pow2(k - 1);
    assert y / 2 == Pow2(k - 1) * q + r;
    assert 2 * (Pow2(k - 1) * q) == Pow2(k) * q;
    assert y == Pow2(k) * q + (2 * r + y % 2);
    DivModUnique(y, Pow2(k), q, 2 * r + y % 2);
  }
}
