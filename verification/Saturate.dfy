/**
 Saturating fixed-point arithmetic of arm_math.h, in the forms its C versions compute it:
 shifts, masks and truncating casts on 32- and 64-bit words.  A cast to a narrower type
 wraps, a right shift of a negative number rounds toward minus infinity, and a left shift
 of a 32-bit word drops what no longer fits.
 */
module Saturate {

  const MIN31 := -0x8000_0000
  const MAX31 := 0x7FFF_FFFF
  const MIN63 := -0x8000_0000_0000_0000
  const MAX63 := 0x7FFF_FFFF_FFFF_FFFF

  predicate Q31(x: int) {
    MIN31 <= x <= MAX31
  }

  predicate Q63(x: int) {
    MIN63 <= x <= MAX63
  }

  /** The nearest number in [lo, hi]. */
  function Clamp(x: int, lo: int, hi: int): int {
    if x < lo then lo else if x > hi then hi else x
  }

  /** The cast to a signed 32-bit type. */
  function ToQ31(x: int): int {
    (x + 0x8000_0000) % 0x1_0000_0000 - 0x8000_0000
  }

  /** The cast to a signed 16-bit type. */
  function ToQ15(x: int): int {
    (x + 0x8000) % 0x1_0000 - 0x8000
  }

  /** The cast to a signed 8-bit type. */
  function ToQ7(x: int): int {
    (x + 0x80) % 0x100 - 0x80
  }

  /** Exclusive or with a word that is all zeros or all ones. */
  function XorSign(x: int, sign: int): int {
    if sign == 0 then x else -1 - x
  }

  // ----- clip_q63_to_q31

  function ClipQ63ToQ31(x: int): int {
    if ToQ31(x / 0x1_0000_0000) != ToQ31(x) / 0x8000_0000
    then XorSign(0x7FFF_FFFF, ToQ31(x / 0x8000_0000_0000_0000))
    else ToQ31(x)
  }

  /** The upper half equals the sign of the lower half exactly when the number fits. */
  lemma ClipIsClamp(x: int)
    requires Q63(x)
    ensures ClipQ63ToQ31(x) == Clamp(x, MIN31, MAX31)
  {
    hide ToQ31;
    var high, low := x / 0x1_0000_0000, x % 0x1_0000_0000;
    assert x == 0x1_0000_0000 * high + low;
    LowWord(high, low);
    SignWord(x);
    InRange(high);
    InRange(if x < 0 then -1 else 0);
  }

  lemma InRange(x: int)
    requires Q31(x)
    ensures ToQ31(x) == x
  {
  }

  lemma LowWord(high: int, low: int)
    requires 0 <= low < 0x1_0000_0000
    ensures var w := ToQ31(0x1_0000_0000 * high + low);
            && w == (if low >= 0x8000_0000 then low - 0x1_0000_0000 else low)
            && w / 0x8000_0000 == (if low >= 0x8000_0000 then -1 else 0)
  {
    var half := low + 0x8000_0000;
    if half < 0x1_0000_0000 {
      Remainder(0x1_0000_0000 * high + half, high, half);
    } else {
      Remainder(0x1_0000_0000 * high + half, high + 1, half - 0x1_0000_0000);
    }
  }

  lemma Remainder(x: int, q: int, r: int)
    requires x == 0x1_0000_0000 * q + r && 0 <= r < 0x1_0000_0000
    ensures x % 0x1_0000_0000 == r
  {
  }

  lemma SignWord(x: int)
    requires Q63(x)
    ensures x / 0x8000_0000_0000_0000 == if x < 0 then -1 else 0
  {
  }

  // ----- mult32x64

  function Mult32x64(x: int, y: int): int {
    (x % 0x1_0000_0000) * y / 0x1_0000_0000 + (x / 0x1_0000_0000) * y
  }

  /** Splitting the wide factor loses nothing, and no intermediate result needs more than 64 bits. */
  lemma Mult32x64IsProduct(x: int, y: int)
    requires Q63(x) && Q31(y)
    ensures Mult32x64(x, y) == x * y / 0x1_0000_0000
    ensures Q63((x % 0x1_0000_0000) * y) && Q63((x / 0x1_0000_0000) * y) && Q63(Mult32x64(x, y))
  {
    var high, low := x / 0x1_0000_0000, x % 0x1_0000_0000;
    SplitProduct(x, high, low, y);
    SumOfHalves(high * y, low * y);
    HalfBounds(high, low, y);
  }

  lemma HalfBounds(high: int, low: int, y: int)
    requires -0x8000_0000 <= high <= 0x8000_0000 && 0 <= low < 0x1_0000_0000 && Q31(y)
    ensures Q63(low * y) && Q63(high * y) && Q63(low * y / 0x1_0000_0000 + high * y)
  {
    ProductBounds(low, y, 0xFFFF_FFFF, 0x8000_0000);
    ProductBounds(high, y, 0x8000_0000, 0x8000_0000);
    var a, b := low * y, high * y;
    QuotientBounds(a, b);
  }

  lemma QuotientBounds(a: int, b: int)
    requires -0x8000_0000 * 0xFFFF_FFFF <= a <= 0x8000_0000 * 0xFFFF_FFFF
    requires -0x4000_0000_0000_0000 <= b <= 0x4000_0000_0000_0000
    ensures Q63(a) && Q63(b) && Q63(a / 0x1_0000_0000 + b)
  {
  }

  lemma SplitProduct(x: int, high: int, low: int, y: int)
    requires x == 0x1_0000_0000 * high + low
    ensures x * y == 0x1_0000_0000 * (high * y) + low * y
  {
    Distribute(0x1_0000_0000 * high, low, y);
    Associate(0x1_0000_0000, high, y);
  }

  lemma SumOfHalves(a: int, b: int)
    ensures (0x1_0000_0000 * a + b) / 0x1_0000_0000 == a + b / 0x1_0000_0000
  {
  }

  lemma Distribute(a: int, b: int, y: int)
    ensures (a + b) * y == a * y + b * y
  {
  }

  lemma Associate(a: int, b: int, y: int)
    ensures (a * b) * y == a * (b * y)
  {
  }

  lemma MulMonotone(a: int, b: int, c: int)
    requires 0 <= a && b <= c
    ensures a * b <= a * c
  {
  }

  lemma Negated(a: int, b: int)
    ensures (-a) * b == -(a * b) && a * (-b) == -(a * b)
  {
  }

  lemma ProductBounds(a: int, b: int, m: int, n: int)
    requires 0 <= m && 0 <= n && -m <= a <= m && -n <= b <= n
    ensures -(m * n) <= a * b <= m * n
  {
    var p := if a >= 0 then a else -a;
    MulMonotone(p, b, n);
    MulMonotone(p, -n, b);
    MulMonotone(n, p, m);
    Negated(a, b);
    Negated(p, n);
  }

  // ----- __SSAT

  function Pow2(n: nat): (p: int)
    ensures p >= 1
  {
    if n == 0 then 1 else 2 * Pow2(n - 1)
  }

  /** Saturation to a signed number of `width` bits. */
  function Saturated(x: int, width: int): int
    requires 1 <= width <= 31
  {
    Clamp(x, -Pow2(width - 1), Pow2(width - 1) - 1)
  }

  /** The loop that computes the bound and the two one-sided comparisons make up saturation. */
  method Ssat(x: int, y: int) returns (r: int)
    requires Q31(x) && 1 <= y <= 31
    ensures r == Saturated(x, y)
  {
    var posMax := 1;
    for i := 0 to y - 1
      invariant posMax == Pow2(i)
    {
      posMax := posMax * 2;
    }
    r := x;
    if x > 0 {
      posMax := posMax - 1;
      if x > posMax {
        r := posMax;
      }
    } else {
      var negMin := -posMax;
      if x < negMin {
        r := negMin;
      }
    }
  }

  lemma Saturated8(x: int)
    ensures Saturated(x, 8) == Clamp(x, -0x80, 0x7F)
  {
    assert Pow2(3) == 8;
    assert Pow2(5) == 32;
    assert Pow2(7) == 128;
  }

  lemma Saturated16(x: int)
    ensures Saturated(x, 16) == Clamp(x, -0x8000, 0x7FFF)
  {
    assert Pow2(3) == 8;
    assert Pow2(6) == 64;
    assert Pow2(9) == 512;
    assert Pow2(12) == 4096;
    assert Pow2(15) == 32768;
  }

  // ----- lanes

  function Shl(x: int, k: nat): int {
    ToQ31(x * Pow2(k))
  }

  function Shr(x: int, k: nat): int {
    x / Pow2(k)
  }

  /** Bits lo .. lo + width of a word, where they are. */
  function Bits(x: int, lo: nat, width: nat): int {
    x / Pow2(lo) % Pow2(width) * Pow2(lo)
  }

  /** Byte `i` of a word as a signed number. */
  function Lane8(x: int, i: nat): int {
    ToQ7(x / Pow2(8 * i))
  }

  /** Halfword `i` of a word as a signed number. */
  function Lane16(x: int, i: nat): int {
    ToQ15(x / Pow2(16 * i))
  }

  /** A word whose lanes have been masked into place; the masks are disjoint, so `|` is a sum. */
  function Join8(u: int, t: int, s: int, r: int): int {
    ToQ31(Bits(u, 24, 8) + Bits(t, 16, 8) + Bits(s, 8, 8) + Bits(r, 0, 8))
  }

  function Join16(s: int, r: int): int {
    ToQ31(Bits(s, 16, 16) + Bits(r, 0, 16))
  }

  function QAdd8(x: int, y: int): int {
    var r := Saturated(ToQ7(x) + ToQ7(y), 8);
    var s := Saturated(Shr(Shl(x, 16), 24) + Shr(Shl(y, 16), 24), 8);
    var t := Saturated(Shr(Shl(x, 8), 24) + Shr(Shl(y, 8), 24), 8);
    var u := Saturated(Shr(x, 24) + Shr(y, 24), 8);
    Join8(Shl(u, 24), Shl(t, 16), Shl(s, 8), r)
  }

  function QSub8(x: int, y: int): int {
    var r := Saturated(ToQ7(x) - ToQ7(y), 8);
    var s := Shl(Saturated(Shr(Shl(x, 16), 24) - Shr(Shl(y, 16), 24), 8), 8);
    var t := Shl(Saturated(Shr(Shl(x, 8), 24) - Shr(Shl(y, 8), 24), 8), 16);
    var u := Shl(Saturated(Shr(x, 24) - Shr(y, 24), 8), 24);
    Join8(u, t, s, r)
  }

  function QAdd16(x: int, y: int): int {
    var r := Saturated(ToQ15(x) + ToQ15(y), 16);
    var s := Shl(Saturated(Shr(x, 16) + Shr(y, 16), 16), 16);
    Join16(s, r)
  }

  function QSub16(x: int, y: int): int {
    var r := Saturated(ToQ15(x) - ToQ15(y), 16);
    var s := Shl(Saturated(Shr(x, 16) - Shr(y, 16), 16), 16);
    Join16(s, r)
  }

  lemma Powers()
    ensures Pow2(0) == 1 && Pow2(8) == 0x100 && Pow2(16) == 0x1_0000 && Pow2(24) == 0x100_0000
  {
    assert Pow2(3) == 8;
    assert Pow2(6) == 64;
    assert Pow2(8) == 0x100;
    assert Pow2(11) == 0x800;
    assert Pow2(14) == 0x4000;
    assert Pow2(16) == 0x1_0000;
    assert Pow2(19) == 0x8_0000;
    assert Pow2(22) == 0x40_0000;
  }

  /** Shifting a lane up to the sign bit and back down extends its sign. */
  lemma ShiftedLane(x: int)
    requires Q31(x)
    ensures Shr(Shl(x, 16), 24) == Lane8(x, 1)
    ensures Shr(Shl(x, 8), 24) == Lane8(x, 2)
    ensures Shr(x, 24) == Lane8(x, 3)
    ensures ToQ7(x) == Lane8(x, 0)
    ensures Shr(x, 16) == Lane16(x, 1)
    ensures ToQ15(x) == Lane16(x, 0)
  {
    Powers();
    hide Pow2, ToQ7, ToQ15, ToQ31;
    ShiftLane1(x);
    ShiftLane2(x);
    TopLanes(x);
    assert x / 1 == x;
  }

  /** The top lane needs no sign extension. */
  lemma TopLanes(x: int)
    requires Q31(x)
    ensures ToQ7(x / 0x100_0000) == x / 0x100_0000 && ToQ15(x / 0x1_0000) == x / 0x1_0000
  {
    assert -0x80 <= x / 0x100_0000 <= 0x7F;
    assert -0x8000 <= x / 0x1_0000 <= 0x7FFF;
  }

  function Signed8(b: int): int {
    if b >= 0x80 then b - 0x100 else b
  }

  function Signed16(b: int): int {
    if b >= 0x8000 then b - 0x1_0000 else b
  }

  lemma Wrap31(high: int, w: int)
    requires 0 <= w < 0x1_0000_0000
    ensures ToQ31(0x1_0000_0000 * high + w) == if w >= 0x8000_0000 then w - 0x1_0000_0000 else w
  {
  }

  lemma Wrap7(high: int, b: int)
    requires 0 <= b < 0x100
    ensures ToQ7(0x100 * high + b) == Signed8(b)
  {
  }

  lemma Wrap15(high: int, b: int)
    requires 0 <= b < 0x1_0000
    ensures ToQ15(0x1_0000 * high + b) == Signed16(b)
  {
  }

  lemma ShiftLane1(x: int)
    ensures ToQ31(x * 0x1_0000) / 0x100_0000 == ToQ7(x / 0x100)
  {
    var b0, y := x % 0x100, x / 0x100;
    var b1, high := y % 0x100, y / 0x100;
    Wrap7(high, b1);
    Wrap31(high, 0x100_0000 * b1 + 0x1_0000 * b0);
    assert x * 0x1_0000 == 0x1_0000_0000 * high + (0x100_0000 * b1 + 0x1_0000 * b0);
    TopByte(b1, 0x1_0000 * b0);
  }

  lemma ShiftLane2(x: int)
    ensures ToQ31(x * 0x100) / 0x100_0000 == ToQ7(x / 0x1_0000)
  {
    var low, y := x % 0x1_0000, x / 0x1_0000;
    var b2, high := y % 0x100, y / 0x100;
    Wrap7(high, b2);
    Wrap31(high, 0x100_0000 * b2 + 0x100 * low);
    assert x * 0x100 == 0x1_0000_0000 * high + (0x100_0000 * b2 + 0x100 * low);
    TopByte(b2, 0x100 * low);
  }

  lemma TopByte(b: int, low: int)
    requires 0 <= b < 0x100 && 0 <= low < 0x100_0000
    ensures var w := 0x100_0000 * b + low;
            (if w >= 0x8000_0000 then w - 0x1_0000_0000 else w) / 0x100_0000 == Signed8(b)
  {
  }

  /** A lane cut to its width and put in place. */
  lemma LaneInPlace(v: int)
    requires -0x80 <= v <= 0x7F
    ensures Bits(v, 0, 8) == v % 0x100
    ensures Bits(Shl(v, 8), 8, 8) == v % 0x100 * 0x100
    ensures Bits(Shl(v, 16), 16, 8) == v % 0x100 * 0x1_0000
    ensures Bits(Shl(v, 24), 24, 8) == v % 0x100 * 0x100_0000
    ensures Signed8(v % 0x100) == v
  {
    Powers();
    hide Pow2, ToQ31;
    LaneAt24(v);
    LowShifts(v);
    assert v / 1 == v;
  }

  lemma LowShifts(v: int)
    requires -0x80 <= v <= 0x7F
    ensures ToQ31(v * 0x100) / 0x100 == v && ToQ31(v * 0x1_0000) / 0x1_0000 == v
  {
    assert ToQ31(v * 0x100) == v * 0x100;
    assert ToQ31(v * 0x1_0000) == v * 0x1_0000;
  }

  lemma LaneAt24(v: int)
    requires -0x80 <= v <= 0x7F
    ensures ToQ31(v * 0x100_0000) / 0x100_0000 % 0x100 == v % 0x100
  {
    var b := v % 0x100;
    Wrap31(if v < 0 then -1 else 0, 0x100_0000 * b);
    TopByte(b, 0);
  }

  lemma HalfInPlace(v: int)
    requires -0x8000 <= v <= 0x7FFF
    ensures Bits(v, 0, 16) == v % 0x1_0000
    ensures Bits(Shl(v, 16), 16, 16) == v % 0x1_0000 * 0x1_0000
    ensures Signed16(v % 0x1_0000) == v
  {
    Powers();
    hide Pow2;
    var b := v % 0x1_0000;
    Wrap31(if v < 0 then -1 else 0, 0x1_0000 * b);
    TopHalf(b, 0);
  }

  lemma TopHalf(b: int, low: int)
    requires 0 <= b < 0x1_0000 && 0 <= low < 0x1_0000
    ensures var w := 0x1_0000 * b + low;
            (if w >= 0x8000_0000 then w - 0x1_0000_0000 else w) / 0x1_0000 == Signed16(b)
  {
  }

  /** The lanes of a word put together from bytes. */
  lemma LanesOf(u: int, t: int, s: int, r: int)
    requires 0 <= u < 0x100 && 0 <= t < 0x100 && 0 <= s < 0x100 && 0 <= r < 0x100
    ensures var w := ToQ31(u * 0x100_0000 + t * 0x1_0000 + s * 0x100 + r);
            && Q31(w)
            && Lane8(w, 0) == Signed8(r) && Lane8(w, 1) == Signed8(s)
            && Lane8(w, 2) == Signed8(t) && Lane8(w, 3) == Signed8(u)
  {
    Powers();
    hide Pow2, ToQ31, ToQ7;
    var h := Signed8(u);
    var low := t * 0x1_0000 + s * 0x100 + r;
    Wrap31(0, 0x100_0000 * u + low);
    var w := h * 0x100_0000 + low;
    Quotients(h, t, s, r);
    Wrap7(h * 0x1_0000 + t * 0x100 + s, r);
    Wrap7(h * 0x100 + t, s);
    Wrap7(h, t);
    Wrap7(if u >= 0x80 then -1 else 0, u);
  }

  lemma Quotients(h: int, t: int, s: int, r: int)
    requires 0 <= t < 0x100 && 0 <= s < 0x100 && 0 <= r < 0x100
    ensures var w := h * 0x100_0000 + t * 0x1_0000 + s * 0x100 + r;
            && w / 0x100 == h * 0x1_0000 + t * 0x100 + s
            && w / 0x1_0000 == h * 0x100 + t
            && w / 0x100_0000 == h
  {
  }

  lemma HalvesOf(s: int, r: int)
    requires 0 <= s < 0x1_0000 && 0 <= r < 0x1_0000
    ensures var w := ToQ31(s * 0x1_0000 + r);
            Q31(w) && Lane16(w, 0) == Signed16(r) && Lane16(w, 1) == Signed16(s)
  {
    Powers();
    hide Pow2, ToQ31, ToQ15;
    Wrap31(0, 0x1_0000 * s + r);
    TopHalf(s, r);
    Wrap15(Signed16(s), r);
    Wrap15(if s >= 0x8000 then -1 else 0, s);
  }

  /** Four bytes shifted, masked and joined come out as the four lanes. */
  lemma JoinedLanes(u: int, t: int, s: int, r: int)
    requires -0x80 <= u <= 0x7F && -0x80 <= t <= 0x7F && -0x80 <= s <= 0x7F && -0x80 <= r <= 0x7F
    ensures var w := Join8(Shl(u, 24), Shl(t, 16), Shl(s, 8), r);
            Q31(w) && Lane8(w, 0) == r && Lane8(w, 1) == s && Lane8(w, 2) == t && Lane8(w, 3) == u
  {
    hide Bits, Shl, ToQ7, ToQ31, Lane8, Signed8, Pow2;
    LaneInPlace(u);
    LaneInPlace(t);
    LaneInPlace(s);
    LaneInPlace(r);
    LanesOf(u % 0x100, t % 0x100, s % 0x100, r % 0x100);
  }

  lemma JoinedHalves(s: int, r: int)
    requires -0x8000 <= s <= 0x7FFF && -0x8000 <= r <= 0x7FFF
    ensures var w := Join16(Shl(s, 16), r); Q31(w) && Lane16(w, 0) == r && Lane16(w, 1) == s
  {
    hide Bits, Shl, ToQ15, ToQ31, Lane16, Signed16, Pow2;
    HalfInPlace(s);
    HalfInPlace(r);
    HalvesOf(s % 0x1_0000, r % 0x1_0000);
  }

  lemma SaturatedFits(x: int)
    ensures -0x80 <= Saturated(x, 8) <= 0x7F && Saturated(x, 8) == Clamp(x, -0x80, 0x7F)
    ensures -0x8000 <= Saturated(x, 16) <= 0x7FFF && Saturated(x, 16) == Clamp(x, -0x8000, 0x7FFF)
  {
    Saturated8(x);
    Saturated16(x);
  }

  /** The packed sum is the saturated sum of each pair of bytes. */
  lemma QAdd8Lanes(x: int, y: int)
    requires Q31(x) && Q31(y)
    ensures Q31(QAdd8(x, y))
    ensures forall i :: 0 <= i < 4 ==> Lane8(QAdd8(x, y), i) == Clamp(Lane8(x, i) + Lane8(y, i), -0x80, 0x7F)
  {
    hide Saturated, Shl, Shr, Lane8, ToQ7, Join8, Clamp, Q31, Pow2;
    ShiftedLane(x);
    ShiftedLane(y);
    var r, s := Lane8(x, 0) + Lane8(y, 0), Lane8(x, 1) + Lane8(y, 1);
    var t, u := Lane8(x, 2) + Lane8(y, 2), Lane8(x, 3) + Lane8(y, 3);
    SaturatedFits(r);
    SaturatedFits(s);
    SaturatedFits(t);
    SaturatedFits(u);
    JoinedLanes(Saturated(u, 8), Saturated(t, 8), Saturated(s, 8), Saturated(r, 8));
  }

  /** The packed difference is the saturated difference of each pair of bytes. */
  lemma QSub8Lanes(x: int, y: int)
    requires Q31(x) && Q31(y)
    ensures Q31(QSub8(x, y))
    ensures forall i :: 0 <= i < 4 ==> Lane8(QSub8(x, y), i) == Clamp(Lane8(x, i) - Lane8(y, i), -0x80, 0x7F)
  {
    hide Saturated, Shl, Shr, Lane8, ToQ7, Join8, Clamp, Q31, Pow2;
    ShiftedLane(x);
    ShiftedLane(y);
    var r, s := Lane8(x, 0) - Lane8(y, 0), Lane8(x, 1) - Lane8(y, 1);
    var t, u := Lane8(x, 2) - Lane8(y, 2), Lane8(x, 3) - Lane8(y, 3);
    SaturatedFits(r);
    SaturatedFits(s);
    SaturatedFits(t);
    SaturatedFits(u);
    JoinedLanes(Saturated(u, 8), Saturated(t, 8), Saturated(s, 8), Saturated(r, 8));
  }

  /** The packed sum is the saturated sum of each pair of halfwords. */
  lemma QAdd16Lanes(x: int, y: int)
    requires Q31(x) && Q31(y)
    ensures Q31(QAdd16(x, y))
    ensures forall i :: 0 <= i < 2 ==> Lane16(QAdd16(x, y), i) == Clamp(Lane16(x, i) + Lane16(y, i), -0x8000, 0x7FFF)
  {
    hide Saturated, Shl, Shr, Lane16, ToQ15, Join16, Clamp, Q31, Pow2;
    ShiftedLane(x);
    ShiftedLane(y);
    SaturatedFits(Lane16(x, 0) + Lane16(y, 0));
    SaturatedFits(Lane16(x, 1) + Lane16(y, 1));
    JoinedHalves(Saturated(Lane16(x, 1) + Lane16(y, 1), 16), Saturated(Lane16(x, 0) + Lane16(y, 0), 16));
  }

  /** The packed difference is the saturated difference of each pair of halfwords. */
  lemma QSub16Lanes(x: int, y: int)
    requires Q31(x) && Q31(y)
    ensures Q31(QSub16(x, y))
    ensures forall i :: 0 <= i < 2 ==> Lane16(QSub16(x, y), i) == Clamp(Lane16(x, i) - Lane16(y, i), -0x8000, 0x7FFF)
  {
    hide Saturated, Shl, Shr, Lane16, ToQ15, Join16, Clamp, Q31, Pow2;
    ShiftedLane(x);
    ShiftedLane(y);
    SaturatedFits(Lane16(x, 0) - Lane16(y, 0));
    SaturatedFits(Lane16(x, 1) - Lane16(y, 1));
    JoinedHalves(Saturated(Lane16(x, 1) - Lane16(y, 1), 16), Saturated(Lane16(x, 0) - Lane16(y, 0), 16));
  }

  // ----- __QADD and __QSUB

  function QAdd(x: int, y: int): int {
    ClipQ63ToQ31(x + y)
  }

  function QSub(x: int, y: int): int {
    ClipQ63ToQ31(x - y)
  }

  lemma QAddIsSaturating(x: int, y: int)
    requires Q31(x) && Q31(y)
    ensures QAdd(x, y) == Clamp(x + y, MIN31, MAX31) && QSub(x, y) == Clamp(x - y, MIN31, MAX31)
  {
    ClipIsClamp(x + y);
    ClipIsClamp(x - y);
  }
}
