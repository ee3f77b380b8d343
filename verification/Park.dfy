/** The Park transform and its inverse on Q31 numbers, and how far a round trip is from exact. */
module Park {
  import opened Saturate

  /** One in Q31, two to the 31st. */
  const ONE := 0x8000_0000

  /** Product of two Q31 numbers: 64 bits, shifted right by 31, cast back. */
  function Mul(a: int, b: int): int {
    ToQ31(a * b / ONE)
  }

  function ParkId(alpha: int, beta: int, sin: int, cos: int): int {
    QAdd(Mul(alpha, cos), Mul(beta, sin))
  }

  function ParkIq(alpha: int, beta: int, sin: int, cos: int): int {
    QSub(Mul(beta, cos), Mul(alpha, sin))
  }

  function InvAlpha(id: int, iq: int, sin: int, cos: int): int {
    QSub(Mul(id, cos), Mul(iq, sin))
  }

  function InvBeta(id: int, iq: int, sin: int, cos: int): int {
    QAdd(Mul(iq, cos), Mul(id, sin))
  }

  /** The only product that does not fit. */
  predicate MulFits(a: int, b: int) {
    !(a == MIN31 && b == MIN31)
  }

  function Rem(a: int, b: int): int {
    a * b % ONE
  }

  /** Unless both factors are -1, a product is the exact one rounded down. */
  lemma MulExact(a: int, b: int)
    requires Q31(a) && Q31(b) && MulFits(a, b)
    ensures Q31(Mul(a, b)) && ONE * Mul(a, b) == a * b - Rem(a, b) && 0 <= Rem(a, b) < ONE
  {
    ProductBounds(a, b, ONE, ONE);
    var p := a * b;
    assert p < ONE * ONE by { BelowSquare(a, b); }
    MulWraps(p);
  }

  /** And only then: -1 times -1 comes out as -1. */
  lemma MulExactIff(a: int, b: int)
    requires Q31(a) && Q31(b)
    ensures ONE * Mul(a, b) <= a * b < ONE * (Mul(a, b) + 1) <==> MulFits(a, b)
  {
    if MulFits(a, b) {
      MulExact(a, b);
    } else {
      assert a * b == ONE * ONE;
    }
  }

  lemma BelowSquare(a: int, b: int)
    requires Q31(a) && Q31(b) && MulFits(a, b)
    ensures a * b < ONE * ONE
  {
    if a > MIN31 {
      ProductBounds(a, b, ONE - 1, ONE);
    } else {
      ProductBounds(a, b, ONE, ONE - 1);
    }
  }

  lemma MulWraps(p: int)
    requires -(ONE * ONE) <= p < ONE * ONE
    ensures ToQ31(p / ONE) == p / ONE && Q31(p / ONE) && ONE * (p / ONE) == p - p % ONE
  {
  }

  // ----- each output by itself

  /** `out` is less than `below` units under and less than `above` units over `exact` / ONE. */
  predicate Close(out: int, exact: int, below: int, above: int) {
    -below * ONE < ONE * out - exact < above * ONE
  }

  /**
   What saturation adds: `out` is close to exact, or it is at an end of the range because exact is
   there or beyond.
   */
  predicate CloseOrClipped(out: int, exact: int, below: int, above: int) {
    || Close(out, exact, below, above)
    || (out == MAX31 && exact > ONE * (MAX31 + 1 - above))
    || (out == MIN31 && exact < ONE * (MIN31 - 1 + below))
  }

  lemma SumClose(x1: int, y1: int, x2: int, y2: int)
    requires Q31(x1) && Q31(y1) && Q31(x2) && Q31(y2) && MulFits(x1, y1) && MulFits(x2, y2)
    ensures var out, exact := QAdd(Mul(x1, y1), Mul(x2, y2)), x1 * y1 + x2 * y2;
            && CloseOrClipped(out, exact, 2, 1)
            && (Q31(Mul(x1, y1) + Mul(x2, y2)) ==> -2 * ONE < ONE * out - exact <= 0)
  {
    hide Mul, Rem, ClipQ63ToQ31;
    MulExact(x1, y1);
    MulExact(x2, y2);
    QAddIsSaturating(Mul(x1, y1), Mul(x2, y2));
  }

  lemma DifferenceClose(x1: int, y1: int, x2: int, y2: int)
    requires Q31(x1) && Q31(y1) && Q31(x2) && Q31(y2) && MulFits(x1, y1) && MulFits(x2, y2)
    ensures var out, exact := QSub(Mul(x1, y1), Mul(x2, y2)), x1 * y1 - x2 * y2;
            && CloseOrClipped(out, exact, 1, 1)
            && (Q31(Mul(x1, y1) - Mul(x2, y2)) ==> -ONE < ONE * out - exact < ONE)
  {
    hide Mul, Rem, ClipQ63ToQ31;
    MulExact(x1, y1);
    MulExact(x2, y2);
    QAddIsSaturating(Mul(x1, y1), Mul(x2, y2));
  }

  /**
   Park: the direct component is alpha cos + beta sin, the quadrature one beta cos - alpha sin.
   Unless it clips, the first is rounded down by less than two units and the second is off by less
   than one.
   */
  lemma ParkClose(alpha: int, beta: int, sin: int, cos: int)
    requires Q31(alpha) && Q31(beta) && Q31(sin) && Q31(cos)
    requires MulFits(alpha, cos) && MulFits(beta, sin) && MulFits(beta, cos) && MulFits(alpha, sin)
    ensures CloseOrClipped(ParkId(alpha, beta, sin, cos), alpha * cos + beta * sin, 2, 1)
    ensures CloseOrClipped(ParkIq(alpha, beta, sin, cos), beta * cos - alpha * sin, 1, 1)
    ensures Q31(Mul(alpha, cos) + Mul(beta, sin)) ==>
              -2 * ONE < ONE * ParkId(alpha, beta, sin, cos) - (alpha * cos + beta * sin) <= 0
    ensures Q31(Mul(beta, cos) - Mul(alpha, sin)) ==>
              -ONE < ONE * ParkIq(alpha, beta, sin, cos) - (beta * cos - alpha * sin) < ONE
  {
    hide Mul, CloseOrClipped, QAdd, QSub;
    SumClose(alpha, cos, beta, sin);
    DifferenceClose(beta, cos, alpha, sin);
  }

  /** The inverse: alpha is Id cos - Iq sin, beta is Iq cos + Id sin. */
  lemma InverseClose(id: int, iq: int, sin: int, cos: int)
    requires Q31(id) && Q31(iq) && Q31(sin) && Q31(cos)
    requires MulFits(id, cos) && MulFits(iq, sin) && MulFits(iq, cos) && MulFits(id, sin)
    ensures CloseOrClipped(InvAlpha(id, iq, sin, cos), id * cos - iq * sin, 1, 1)
    ensures CloseOrClipped(InvBeta(id, iq, sin, cos), iq * cos + id * sin, 2, 1)
    ensures Q31(Mul(id, cos) - Mul(iq, sin)) ==>
              -ONE < ONE * InvAlpha(id, iq, sin, cos) - (id * cos - iq * sin) < ONE
    ensures Q31(Mul(iq, cos) + Mul(id, sin)) ==>
              -2 * ONE < ONE * InvBeta(id, iq, sin, cos) - (iq * cos + id * sin) <= 0
  {
    hide Mul, CloseOrClipped, QAdd, QSub;
    DifferenceClose(id, cos, iq, sin);
    SumClose(iq, cos, id, sin);
  }

  // ----- the round trip

  /** No product, in either direction, is -1 times -1, and the forward additions do not clip. */
  predicate AllFit(alpha: int, beta: int, sin: int, cos: int) {
    && MulFits(alpha, cos) && MulFits(beta, sin) && MulFits(beta, cos) && MulFits(alpha, sin)
    && var id, iq := Mul(alpha, cos) + Mul(beta, sin), Mul(beta, cos) - Mul(alpha, sin);
    && Q31(id) && Q31(iq)
    && MulFits(id, cos) && MulFits(iq, sin) && MulFits(iq, cos) && MulFits(id, sin)
  }

  /** None of the four additions clips, and no product is -1 times -1. */
  predicate NothingClips(alpha: int, beta: int, sin: int, cos: int) {
    && AllFit(alpha, beta, sin, cos)
    && var id, iq := Mul(alpha, cos) + Mul(beta, sin), Mul(beta, cos) - Mul(alpha, sin);
    && Q31(Mul(id, cos) - Mul(iq, sin)) && Q31(Mul(iq, cos) + Mul(id, sin))
  }

  /** The round trip gives back the input scaled by sin^2 + cos^2, off by less than 4 and less than 5 units. */
  predicate Near(alpha: int, beta: int, sin: int, cos: int) {
    var id, iq := ParkId(alpha, beta, sin, cos), ParkIq(alpha, beta, sin, cos);
    var a, b := InvAlpha(id, iq, sin, cos), InvBeta(id, iq, sin, cos);
    && -4 * ONE * ONE < ONE * ONE * a - alpha * (sin * sin + cos * cos) < 4 * ONE * ONE
    && -5 * ONE * ONE < ONE * ONE * b - beta * (sin * sin + cos * cos) < 5 * ONE * ONE
  }

  /** Forward: what the rounding of the two products costs. */
  lemma ForwardExact(alpha: int, beta: int, sin: int, cos: int)
    requires Q31(alpha) && Q31(beta) && Q31(sin) && Q31(cos)
    requires MulFits(alpha, cos) && MulFits(beta, sin) && MulFits(beta, cos) && MulFits(alpha, sin)
    ensures var id, iq := Mul(alpha, cos) + Mul(beta, sin), Mul(beta, cos) - Mul(alpha, sin);
            && ONE * id == alpha * cos + beta * sin - Rem(alpha, cos) - Rem(beta, sin)
            && ONE * iq == beta * cos - alpha * sin - Rem(beta, cos) + Rem(alpha, sin)
  {
    hide Mul, Rem;
    MulExact(alpha, cos);
    MulExact(beta, sin);
    MulExact(beta, cos);
    MulExact(alpha, sin);
  }

  lemma Expand3(x: int, y: int, z: int, w: int)
    ensures (x + y - z) * w == x * w + y * w - z * w && (x - y - z) * w == x * w - y * w - z * w
  {
    Distribute(x + y - z, z, w);
    Distribute(x, y, w);
    Distribute(x - y - z, z, w);
    Distribute(x - y, y, w);
  }

  lemma Swap(x: int, y: int, z: int)
    ensures (x * y) * z == (x * z) * y
  {
    Associate(x, y, z);
    Associate(x, z, y);
  }

  lemma Factor(x: int, s: int, c: int)
    ensures (x * s) * s + (x * c) * c == x * (s * s + c * c)
  {
    Associate(x, s, s);
    Associate(x, c, c);
    Distribute(s * s, c * c, x);
  }

  /**
   The algebra behind the round trip: with `d` and `q` the rounding errors of the forward
   transform, the rotation back cancels the cross terms.
   */
  lemma RotateBack(alpha: int, beta: int, s: int, c: int, id: int, iq: int, d: int, q: int)
    requires ONE * id == alpha * c + beta * s - d
    requires ONE * iq == beta * c - alpha * s - q
    ensures ONE * (id * c - iq * s) == alpha * (s * s + c * c) - d * c + q * s
    ensures ONE * (iq * c + id * s) == beta * (s * s + c * c) - q * c - d * s
  {
    TimesOne(id, c);
    TimesOne(iq, s);
    TimesOne(iq, c);
    TimesOne(id, s);
    Expand3(alpha * c, beta * s, d, c);
    Expand3(beta * c, alpha * s, q, s);
    Expand3(beta * c, alpha * s, q, c);
    Expand3(alpha * c, beta * s, d, s);
    Swap(beta, s, c);
    Swap(alpha, s, c);
    Factor(alpha, s, c);
    Factor(beta, s, c);
  }

  lemma TimesOne(x: int, y: int)
    ensures ONE * (x * y) == (ONE * x) * y
  {
    Associate(ONE, x, y);
  }

  lemma ErrorAlpha(s: int, c: int, d: int, q: int, e: int)
    requires Q31(s) && Q31(c)
    requires 0 <= d <= 2 * ONE - 2 && -ONE < q < ONE && -ONE < e < ONE
    ensures -4 * ONE * ONE < -d * c + q * s - ONE * e < 4 * ONE * ONE
  {
    ProductBounds(d, c, 2 * ONE - 2, ONE);
    ProductBounds(q, s, ONE - 1, ONE);
  }

  lemma ErrorBeta(s: int, c: int, d: int, q: int, g: int)
    requires Q31(s) && Q31(c)
    requires 0 <= d <= 2 * ONE - 2 && -ONE < q < ONE && 0 <= g <= 2 * ONE - 2
    ensures -5 * ONE * ONE < -q * c - d * s - ONE * g < 5 * ONE * ONE
  {
    ProductBounds(d, s, 2 * ONE - 2, ONE);
    ProductBounds(q, c, ONE - 1, ONE);
  }

  /** The two sums of the inverse, before they are clipped, for a forward transform that did not clip. */
  lemma Errors(alpha: int, beta: int, sin: int, cos: int)
    requires Q31(alpha) && Q31(beta) && Q31(sin) && Q31(cos) && AllFit(alpha, beta, sin, cos)
    ensures var id, iq := Mul(alpha, cos) + Mul(beta, sin), Mul(beta, cos) - Mul(alpha, sin);
            var a, b := Mul(id, cos) - Mul(iq, sin), Mul(iq, cos) + Mul(id, sin);
            && -4 * ONE * ONE < ONE * ONE * a - alpha * (sin * sin + cos * cos) < 4 * ONE * ONE
            && -5 * ONE * ONE < ONE * ONE * b - beta * (sin * sin + cos * cos) < 5 * ONE * ONE
  {
    hide Mul, Rem;
    var id, iq := Mul(alpha, cos) + Mul(beta, sin), Mul(beta, cos) - Mul(alpha, sin);
    MulExact(alpha, cos);
    MulExact(beta, sin);
    MulExact(beta, cos);
    MulExact(alpha, sin);
    MulExact(id, cos);
    MulExact(iq, sin);
    MulExact(iq, cos);
    MulExact(id, sin);
    var d, q := Rem(alpha, cos) + Rem(beta, sin), Rem(beta, cos) - Rem(alpha, sin);
    RotateBack(alpha, beta, sin, cos, id, iq, d, q);
    ErrorAlpha(sin, cos, d, q, Rem(id, cos) - Rem(iq, sin));
    ErrorBeta(sin, cos, d, q, Rem(iq, cos) + Rem(id, sin));
  }

  /**
   Park and back: if nothing clips, the result differs from the input scaled by
   sin^2 + cos^2 by less than 4 units in the last place for alpha and less than 5 for beta.
   */
  lemma RoundTripError(alpha: int, beta: int, sin: int, cos: int)
    requires Q31(alpha) && Q31(beta) && Q31(sin) && Q31(cos) && NothingClips(alpha, beta, sin, cos)
    ensures Near(alpha, beta, sin, cos)
  {
    hide Mul, ClipQ63ToQ31;
    var id, iq := Mul(alpha, cos) + Mul(beta, sin), Mul(beta, cos) - Mul(alpha, sin);
    MulExact(alpha, cos);
    MulExact(beta, sin);
    MulExact(beta, cos);
    MulExact(alpha, sin);
    MulExact(id, cos);
    MulExact(iq, sin);
    MulExact(iq, cos);
    MulExact(id, sin);
    QAddIsSaturating(Mul(alpha, cos), Mul(beta, sin));
    QAddIsSaturating(Mul(beta, cos), Mul(alpha, sin));
    QAddIsSaturating(Mul(id, cos), Mul(iq, sin));
    QAddIsSaturating(Mul(iq, cos), Mul(id, sin));
    Errors(alpha, beta, sin, cos);
  }

  // ----- when nothing clips

  /** How long the input vector may be: five units short of full scale. */
  const LONGEST := ONE - 5

  predicate ShortVector(alpha: int, beta: int) {
    alpha * alpha + beta * beta <= LONGEST * LONGEST
  }

  predicate OnUnitDisc(sin: int, cos: int) {
    sin * sin + cos * cos <= ONE * ONE
  }

  lemma SquareMonotone(x: int, y: int)
    requires 0 <= y < x
    ensures y * y < x * x
  {
    assert y * y <= x * y;
    assert x * y < x * x;
  }

  lemma RootBound(t: int, b: int)
    requires b >= 0 && t * t <= b * b
    ensures -b <= t <= b
  {
    if t > b {
      SquareMonotone(t, b);
    } else if t < -b {
      SquareMonotone(-t, b);
    }
  }

  lemma SquareNonNegative(x: int)
    ensures x * x >= 0
  {
  }

  /** The inner product of a short vector with one on the unit disc (Cauchy and Schwarz). */
  lemma InnerProduct(x: int, y: int, c: int, s: int)
    requires ShortVector(x, y) && OnUnitDisc(s, c)
    ensures -(LONGEST * ONE) <= x * c + y * s <= LONGEST * ONE
  {
    var t, u := x * c + y * s, x * s - y * c;
    var n, r := x * x + y * y, s * s + c * c;
    Lagrange(x, y, c, s);
    SquareNonNegative(x);
    SquareNonNegative(y);
    SquareNonNegative(c);
    SquareNonNegative(s);
    SquareNonNegative(u);
    ProductBounds(n, r, LONGEST * LONGEST, ONE * ONE);
    RootBound(t, LONGEST * ONE);
  }

  lemma SumSquared(p: int, q: int)
    ensures (p + q) * (p + q) == p * p + 2 * (p * q) + q * q
    ensures (p - q) * (p - q) == p * p - 2 * (p * q) + q * q
  {
    Distribute(p, q, p + q);
    Distribute(p, q, p);
    Distribute(p, q, q);
    Distribute(p - q, q, p - q);
    Distribute(p - q, q, p);
    Distribute(p - q, q, q);
  }

  lemma ProductSquared(x: int, y: int)
    ensures (x * y) * (x * y) == (x * x) * (y * y)
  {
    Associate(x, y, x * y);
    Swap(x, y, y);
    Associate(x, x, y * y);
  }

  lemma Lagrange(x: int, y: int, c: int, s: int)
    ensures (x * c + y * s) * (x * c + y * s) + (x * s - y * c) * (x * s - y * c) == (x * x + y * y) * (s * s + c * c)
  {
    SumSquared(x * c, y * s);
    SumSquared(x * s, y * c);
    ProductSquared(x, c);
    ProductSquared(y, s);
    ProductSquared(x, s);
    ProductSquared(y, c);
    Cross(x, y, c, s);
    Distribute(x * x, y * y, s * s + c * c);
    Distribute(s * s, c * c, x * x);
    Distribute(s * s, c * c, y * y);
  }

  lemma Cross(x: int, y: int, c: int, s: int)
    ensures (x * c) * (y * s) == (x * s) * (y * c)
  {
    Associate(x, c, y * s);
    Associate(x, s, y * c);
    Swap(y, c, s);
  }

  lemma ComponentBound(x: int, y: int)
    requires ShortVector(x, y)
    ensures -LONGEST <= x <= LONGEST && -LONGEST <= y <= LONGEST
  {
    SquareNonNegative(x);
    SquareNonNegative(y);
    RootBound(x, LONGEST);
    RootBound(y, LONGEST);
  }

  /** The forward transform of a short vector is again within range. */
  lemma ShortForward(alpha: int, beta: int, sin: int, cos: int)
    requires Q31(sin) && Q31(cos) && ShortVector(alpha, beta) && OnUnitDisc(sin, cos)
    ensures Q31(alpha) && Q31(beta) && AllFit(alpha, beta, sin, cos)
  {
    hide Mul, Rem;
    ComponentBound(alpha, beta);
    ForwardExact(alpha, beta, sin, cos);
    MulExact(alpha, cos);
    MulExact(beta, sin);
    MulExact(beta, cos);
    MulExact(alpha, sin);
    InnerProduct(alpha, beta, cos, sin);
    MirrorShort(alpha, beta);
    InnerProduct(beta, -alpha, cos, sin);
    Negated(alpha, sin);
  }

  lemma MirrorShort(alpha: int, beta: int)
    requires ShortVector(alpha, beta)
    ensures ShortVector(beta, -alpha)
  {
  }

  /** What a caller can check beforehand so that no addition of the round trip clips. */
  lemma ShortNeverClips(alpha: int, beta: int, sin: int, cos: int)
    requires Q31(sin) && Q31(cos) && ShortVector(alpha, beta) && OnUnitDisc(sin, cos)
    ensures Q31(alpha) && Q31(beta) && NothingClips(alpha, beta, sin, cos) && Near(alpha, beta, sin, cos)
  {
    hide Mul;
    ComponentBound(alpha, beta);
    ShortForward(alpha, beta, sin, cos);
    Errors(alpha, beta, sin, cos);
    SquareNonNegative(sin);
    SquareNonNegative(cos);
    ProductBounds(alpha, sin * sin + cos * cos, LONGEST, ONE * ONE);
    ProductBounds(beta, sin * sin + cos * cos, LONGEST, ONE * ONE);
    RoundTripError(alpha, beta, sin, cos);
  }
}
