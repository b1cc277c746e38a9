/** The integer and fraction MODf delivers, measured against the exact real product. */
module FpModValue {
  import opened Arith
  import opened FpWord
  import opened FpValue
  import opened FpPack
  import opened FpMul
  import opened FpAdd
  import opened FpAddValue
  import opened FpSubValue
  import opened FpMod

  // ---- the exact product in guard units ----------------------------------------------------------

  /** g cuts y: exactly, or by less than one unit, or by less than two after doubling. */
  ghost predicate CutOf(g: nat, y: real) {
    || (g as real <= y < g as real + 1.0)
    || (g % 2 == 0 && g as real <= y < g as real + 2.0)
  }

  function GuardDivisor(g: nat): nat {
    if g < TWO_58 then 52 else 53
  }

  lemma ProductGuard(p: nat, e: int, g: nat, x: real)
    requires TWO_58 / 2 <= g < TWO_59
    requires g * 0x20_0000_0000_0000 <= p < (g + 1) * 0x20_0000_0000_0000
    requires IsScaled(x, p, e - 240)
    ensures var (e', g') := Normalised(e, g);
            var y := p as real / Pow2(GuardDivisor(g)) as real;
            && TWO_58 <= g' < TWO_59 && CutOf(g', y) && IsGuard(x, y, e')
            && (p % 0x20_0000_0000_0000 == 0 ==> y == g' as real)
  {
    FiftyTwo();
    hide P2, IsScaled, IsGuard, Pow2;
    InGuardUnits(p, e - 240, GuardDivisor(g), x, p as real / Pow2(GuardDivisor(g)) as real);
    if p % 0x20_0000_0000_0000 == 0 {
      assert p == g * 0x20_0000_0000_0000;
    }
  }

  lemma SingleProductWhole(a: Fpac, b: Fpac)
    requires a.l == 0 && b.l == 0
    ensures Fraction(a) * Fraction(b) % 0x20_0000_0000_0000 == 0
  {
    WordFields(a);
    WordFields(b);
    var h1, h2 := Fraction(a) / TWO_32, Fraction(b) / TWO_32;
    assert Fraction(a) == h1 * TWO_32 && Fraction(b) == h2 * TWO_32;
    hide Fraction;
    assert h1 * TWO_32 * (h2 * TWO_32) == h1 * h2 * 0x800 * 0x20_0000_0000_0000;
    ModUnique(Fraction(a) * Fraction(b), 0x20_0000_0000_0000, h1 * h2 * 0x800, 0);
  }

  /** What the split works from: the normalised cut product, and the exact product it cuts. */
  lemma SplitInput(a: Fpac, b: Fpac, fps: nat) returns (e: int, g: nat, y: real)
    requires Exponent(a) != 0 && Exponent(b) != 0 && Clean(a, fps) && Clean(b, fps)
    ensures TWO_58 <= g < TWO_59 && CutOf(g, y) && IsGuard(Abs(ProductOf(a, b)), y, e)
    ensures !Double(fps) ==> y == g as real
    ensures ModSpec(a, b, fps) == SplitSpec(Negative(a) != Negative(b), e, g, fps)
  {
    hide *;
    var c := FracProduct(Fraction(a), Fraction(b));
    ModSpecSplits(a, b, fps);
    ProductCut(Fraction(a), Fraction(b));
    ExactProduct(a, b);
    ProductGuard(Fraction(a) * Fraction(b), Exponent(a) + Exponent(b) - 128, c, Abs(ProductOf(a, b)));
    if !Double(fps) {
      CleanSingle(a, fps);
      CleanSingle(b, fps);
      SingleProductWhole(a, b);
    }
    var n := Normalised(Exponent(a) + Exponent(b) - 128, c);
    e, g := n.0, n.1;
    y := (Fraction(a) * Fraction(b)) as real / Pow2(GuardDivisor(c)) as real;
  }

  lemma CleanSingle(a: Fpac, fps: nat)
    requires Clean(a, fps) && !Double(fps)
    ensures a.l == 0
  {
  }

  lemma ModSpecSplits(a: Fpac, b: Fpac, fps: nat)
    requires Exponent(a) != 0 && Exponent(b) != 0
    ensures var c := FracProduct(Fraction(a), Fraction(b));
            var (e, g) := Normalised(Exponent(a) + Exponent(b) - 128, c);
            && TWO_58 / 2 <= c < TWO_59 && TWO_58 <= g < TWO_59
            && ModSpec(a, b, fps) == SplitSpec(Negative(a) != Negative(b), e, g, fps)
  {
    ProductRange(Fraction(a), Fraction(b));
    hide SplitSpec, FracProduct, Fraction;
  }

  // ---- binades and the split limits -------------------------------------------------------------------

  lemma GuardTop(e: int)
    ensures TWO_58 as real * P2(e - 187) == P2(e - 129) && TWO_59 as real * P2(e - 187) == P2(e - 128)
  {
    Pow2Constants();
    hide P2, Pow2;
    P2AddNat(e - 187, 58);
    P2AddNat(e - 187, 59);
  }

  lemma ProductBinade(x: real, y: real, e: int, g: nat)
    requires TWO_58 <= g < TWO_59 && CutOf(g, y) && IsGuard(x, y, e)
    ensures P2(e - 129) <= x < P2(e - 128)
  {
    GuardTop(e);
    IsGuardUnit(x, y, e);
    assert TWO_58 as real <= y < TWO_59 as real;
    hide *;
    ScaledBounds(TWO_58 as real, y, TWO_59 as real, P2(e - 187), P2(e - 129), x, P2(e - 128));
  }

  lemma ScaledBounds(lo: real, y: real, hi: real, u: real, l: real, x: real, h: real)
    requires u > 0.0 && lo <= y < hi
    requires l == lo * u && x == y * u && h == hi * u
    ensures l <= x < h
  {
    ScaleMonotone(lo, y, u);
    ScaleMonotone(y, hi, u);
  }

  /** A power of two bound on the product is a bound on its exponent. */
  lemma ExponentBound(x: real, e: int, n: int)
    requires P2(e - 129) <= x < P2(e - 128)
    ensures x < P2(n) <==> e - 128 <= n
  {
    hide P2;
    if e - 128 <= n {
      P2Monotone(e - 128, n);
    } else {
      P2Monotone(n, e - 129);
    }
  }

  // ---- packing a whole number -------------------------------------------------------------------------

  lemma PackWordFields(neg: bool, e: int, f: nat)
    requires 1 <= e <= 255 && TWO_55 <= f < TWO_56
    ensures var w := PackWord(neg, e, f); Exponent(w) == e && Fraction(w) == f && (Negative(w) <==> neg)
  {
    var w := PackWord(neg, e, f);
    DivBounds(f, TWO_32);
    var m := f / TWO_32 - TWO_23;
    assert 0 <= m < TWO_23;
    ModUnique(f / TWO_32, TWO_23, 1, m);
    var s := if neg then 1 else 0;
    assert w.h == (s * 256 + e) * TWO_23 + m;
    ModUnique(w.h, TWO_23, s * 256 + e, m);
    ModUnique(s * 256 + e, 256, s, e);
  }

  lemma PackedWhole(neg: bool, e: int, g: nat, fps: nat)
    requires 1 <= e <= 255 && TWO_58 <= g < TWO_59 && g % 8 == 0
    ensures RoundPack(neg, e, g, false, fps) == FpResult(PackWord(neg, e, g / 8), false, 0)
  {
    hide PackWord;
  }

  lemma PackedValue(neg: bool, e: int, g: nat)
    requires 1 <= e <= 255 && TWO_58 <= g < TWO_59 && g % 8 == 0
    ensures var w := PackWord(neg, e, g / 8);
            IsScaled(Magnitude(w), g, e - 187) && Value(w) == if neg then -Magnitude(w) else Magnitude(w)
  {
    var w := PackWord(neg, e, g / 8);
    assert 8 * (g / 8) == g && TWO_55 <= g / 8 < TWO_56;
    hide *;
    PackWordFields(neg, e, g / 8);
    ValueSigned(w);
    SignedValue(w);
    InGuard(g / 8, e, Magnitude(w));
  }

  lemma ScaledUnique(a: real, b: real, f: nat, e: int)
    requires IsScaled(a, f, e) && IsScaled(b, f, e)
    ensures a == b
  {
    hide P2;
  }

  // ---- the split on numbers ------------------------------------------------------------------------------

  /** t is the product truncated, and u the part below the point of the cut product. */
  ghost predicate Split(x: real, t: nat, u: real) {
    t as real <= x < t as real + 1.0 && 0.0 <= u < 1.0 && t as real + u <= x
  }

  lemma PointWeight(e: int)
    requires 129 <= e <= 184
    ensures P2(e - 187) * Pow2(187 - e) as real == 1.0 && Pow2(187 - e) % 8 == 0
  {
    hide *;
    P2Zero();
    P2AddNat(e - 187, 187 - e);
    MultipleOfEight(184 - e);
  }

  lemma MultipleOfEight(n: nat)
    ensures Pow2(n + 3) % 8 == 0
  {
    assert Pow2(n + 3) == 2 * Pow2(n + 2) == 4 * Pow2(n + 1) == 8 * Pow2(n);
  }

  /** A whole number counts itself, in guard units of 2^(e - 187). */
  lemma WholeScaled(t: nat, e: int)
    requires 129 <= e <= 184
    ensures IsScaled(t as real, t * Pow2(187 - e), e - 187)
  {
    PointWeight(e);
    hide P2, Pow2;
    WeightOne(t, Pow2(187 - e), P2(e - 187));
  }

  lemma WeightOne(t: nat, c: nat, gu: real)
    requires gu * c as real == 1.0
    ensures (t * c) as real * gu == t as real
  {
    RealProduct(t, c);
    assert t as real * c as real * gu == t as real * (gu * c as real);
  }

  lemma IsScaledAdd(a: real, f: nat, b: real, g: nat, e: int)
    requires IsScaled(a, f, e) && IsScaled(b, g, e)
    ensures IsScaled(a + b, f + g, e)
  {
    hide P2;
    assert (f + g) as real == f as real + g as real;
  }

  /** Order of counts is order of numbers. */
  lemma GuardBetween(f: nat, y: real, g: nat, e: int, a: real, x: real, b: real)
    requires IsScaled(a, f, e - 187) && IsGuard(x, y, e) && IsScaled(b, g, e - 187)
    ensures f as real <= y <==> a <= x
    ensures y < g as real <==> x < b
  {
    hide P2;
    OrderScaled(f as real, y, P2(e - 187), a, x);
    OrderScaled(y, g as real, P2(e - 187), x, b);
  }

  lemma OrderScaled(p: real, q: real, u: real, a: real, b: real)
    requires u > 0.0 && a == p * u && b == q * u
    ensures p <= q <==> a <= b
    ensures p < q <==> a < b
  {
    ScaleMonotone(p, q, u);
  }

  lemma ScaledZero(u: real, m: nat, e: int)
    requires IsScaled(u, m, e)
    ensures u >= 0.0 && (u == 0.0 <==> m == 0)
  {
    hide P2;
    OrderScaled(0.0, m as real, P2(e), 0.0, u);
  }

  lemma ScaledLess(u: real, m: nat, v: real, n: nat, e: int)
    requires IsScaled(u, m, e) && IsScaled(v, n, e)
    ensures m < n <==> u < v
  {
    hide P2;
    OrderScaled(m as real, n as real, P2(e), u, v);
  }

  /** Dividing the cut product by the weight of one gives the truncated product: floors compose. */
  lemma SplitNumbers(x: real, y: real, e: int, g: nat, t: nat, m: nat, u: real)
    requires 129 <= e <= 184 && CutOf(g, y) && IsGuard(x, y, e)
    requires g == t * Pow2(187 - e) + m && m < Pow2(187 - e) && IsScaled(u, m, e - 187)
    ensures Split(x, t, u)
    ensures u == 0.0 <==> m == 0
    ensures IsScaled(t as real + u, g, e - 187)
  {
    var c := Pow2(187 - e);
    PointWeight(e);
    assert (t + 1) * c == t * c + c;
    UpperCut(g, c, t, y);
    assert 1 * c == c;
    hide *;
    WholeScaled(t, e);
    WholeScaled(t + 1, e);
    WholeScaled(1, e);
    IsScaledAdd(t as real, t * c, u, m, e - 187);
    GuardBetween(g, y, (t + 1) * c, e, t as real + u, x, (t + 1) as real);
    ScaledZero(u, m, e - 187);
    ScaledLess(u, m, 1 as real, 1 * c, e - 187);
    IsSplit(x, t, u);
  }

  lemma IsSplit(x: real, t: nat, u: real)
    requires t as real + u <= x < (t + 1) as real && 0.0 <= u < 1.0
    ensures Split(x, t, u)
  {
  }

  lemma UpperCut(g: nat, c: nat, t: nat, y: real)
    requires c % 8 == 0 && t * c <= g < (t + 1) * c && CutOf(g, y)
    ensures g as real <= y < ((t + 1) * c) as real
  {
    var k := c / 8;
    assert (t + 1) * c == 8 * ((t + 1) * k) by {
      assert c == 8 * k;
      assert (t + 1) * (8 * k) == 8 * ((t + 1) * k);
    }
    assert g % 2 == 0 ==> g + 2 <= (t + 1) * c;
  }

  // ---- the fraction part ------------------------------------------------------------------------------------

  lemma {:induction false} NormaliseNear(e: int, g: nat)
    requires 0 < g < TWO_59
    ensures e - 58 <= Normalise(e, g).0 <= e
  {
    NormaliseExact(e, g);
    var k := e - Normalise(e, g).0;
    MulMonotone(1, g, Pow2(k));
    Pow2Constants();
    hide Pow2, Normalise;
    if k >= 59 {
      Pow2Monotone(59, k);
    }
  }

  lemma NoException(neg: bool, e: int, g: nat, fps: nat)
    requires TWO_58 <= g < TWO_59 && 1 <= e <= 254
    ensures var r := RoundPack(neg, e, g, true, fps); !r.v && r.fec == 0
  {
    hide PackWord;
  }

  lemma FractionGuard(m: nat, k: nat, u: real)
    requires IsScaled(u, m, k - 59)
    ensures IsGuard(u, (m * Pow2(k)) as real, 128)
  {
    P2AddNat(-59, k);
    hide P2, Pow2;
    RealProduct(m, Pow2(k));
    assert m as real * (P2(-59) * Pow2(k) as real) == m as real * Pow2(k) as real * P2(-59);
  }

  lemma FractionRounds(neg: bool, m: nat, k: nat, u: real, fps: nat)
    requires 0 < m && 0 < m * Pow2(k) < TWO_59 && IsScaled(u, m, k - 59)
    ensures CorrectlyRounded(FpResult(FractionSpec(neg, m, k, fps), false, 0), u, neg, Truncating(fps), fps)
  {
    var g := m * Pow2(k);
    NormaliseNear(128, g);
    var (e', g') := Normalise(128, g);
    NoException(neg, e', g', fps);
    assert FractionSpec(neg, m, k, fps) == RoundPack(neg, e', g', true, fps).fac;
    FractionGuard(m, k, u);
    hide *;
    KeptDifference(neg, 128, g, fps, u);
  }

  // ---- the two theorems -----------------------------------------------------------------------------------------

  /** The integer part delivered is the product truncated toward zero, exactly, at either precision; the fraction
      delivered is the rounding of what lies below the point of the cut product. */
  ghost predicate SplitsProduct(r: ModResult, x: real, neg: bool, t: nat, u: real, fps: nat) {
    && Split(x, t, u)
    && Value(r.whole) == (if neg then -(t as real) else t as real) && (!Double(fps) ==> r.whole.l == 0)
    && (if u == 0.0 then r.frac == ZERO_FAC && !r.v && r.fec == 0
        else CorrectlyRounded(FpResult(r.frac, r.v, r.fec), u, neg, Truncating(fps), fps))
  }

  lemma AllFraction(neg: bool, e: int, g: nat, x: real, y: real, fps: nat)
    requires TWO_58 <= g < TWO_59 && CutOf(g, y) && IsGuard(x, y, e) && e <= 128
    ensures SplitsProduct(SplitSpec(neg, e, g, fps), x, neg, 0, x, fps)
  {
    assert SplitSpec(neg, e, g, fps).whole == ZERO_FAC;
    assert var r := SplitSpec(neg, e, g, fps);
           FpResult(r.frac, r.v, r.fec) == RoundPack(neg, e, g, true, fps);
    hide *;
    ProductBinade(x, y, e, g);
    BelowOne(x, e);
    ZeroValue();
    CutIsGap(g, y, Double(fps));
    RoundPackCorrect(neg, e, g, true, fps, x, y, if g as real <= y < g as real + 1.0 then 1 else 2);
    IsAllFraction(SplitSpec(neg, e, g, fps), x, neg, fps);
  }

  lemma IsAllFraction(r: ModResult, x: real, neg: bool, fps: nat)
    requires Value(r.whole) == 0.0 && r.whole.l == 0 && 0.0 < x < 1.0
    requires CorrectlyRounded(FpResult(r.frac, r.v, r.fec), x, neg, Truncating(fps), fps)
    ensures SplitsProduct(r, x, neg, 0, x, fps)
  {
    hide CorrectlyRounded, Value;
  }

  lemma ZeroValue()
    ensures Value(ZERO_FAC) == 0.0
  {
    hide P2, Fraction;
    assert Exponent(ZERO_FAC) == 0;
    hide Exponent;
    ValueSigned(ZERO_FAC);
  }

  lemma CutIsGap(g: nat, y: real, dbl: bool)
    requires CutOf(g, y)
    ensures var s := if g as real <= y < g as real + 1.0 then 1 else 2;
            Gap(dbl, g, s) && g as real <= y < (g + s) as real
  {
  }

  lemma BelowOne(x: real, e: int)
    requires P2(e - 129) <= x < P2(e - 128) && e <= 128
    ensures 0.0 < x < 1.0
  {
    ExponentBound(x, e, 0);
    P2Zero();
  }

  lemma BothParts(neg: bool, e: int, g: nat, x: real, y: real, t: nat, u: real, fps: nat)
    requires TWO_58 <= g < TWO_59 && CutOf(g, y) && IsGuard(x, y, e) && 129 <= e <= SplitLimit(Double(fps))
    requires t == g / Pow2(187 - e) && IsScaled(u, BelowPoint(e, g), e - 187)
    ensures SplitsProduct(SplitSpec(neg, e, g, fps), x, neg, t, u, fps)
    ensures IsScaled(t as real + u, g, e - 187)
  {
    var m := BelowPoint(e, g);
    PointWeight(e);
    WholeRemainder(g, Pow2(187 - e));
    assert g == t * Pow2(187 - e) + m && m < Pow2(187 - e);
    BothSpec(neg, e, g, fps);
    hide *;
    SplitNumbers(x, y, e, g, t, m, u);
    WholePart(neg, e, g - m, t, fps);
    if m > 0 {
      FractionRounds(neg, m, e - 128, u, fps);
    }
    IsSplitProduct(SplitSpec(neg, e, g, fps), x, neg, t, u, fps);
  }

  lemma WholePart(neg: bool, e: int, g: nat, t: nat, fps: nat)
    requires TWO_58 <= g < TWO_59 && 129 <= e <= 184 && g == t * Pow2(187 - e) && g % 8 == 0
    ensures var r := RoundPack(neg, e, g, false, fps);
            && !r.v && r.fec == 0 && Value(r.fac) == (if neg then -(t as real) else t as real)
            && (e <= 152 ==> r.fac.l == 0)
  {
    NoLowHalf(neg, e, g, t);
    hide *;
    PackedWhole(neg, e, g, fps);
    PackedValue(neg, e, g);
    WholeScaled(t, e);
    ScaledUnique(t as real, Magnitude(PackWord(neg, e, g / 8)), g, e - 187);
  }

  /** An integer part below 2^24 has nothing in its low half. */
  lemma NoLowHalf(neg: bool, e: int, g: nat, t: nat)
    requires 129 <= e <= 184 && g == t * Pow2(187 - e)
    ensures e <= 152 ==> PackWord(neg, e, g / 8).l == 0
  {
    if e <= 152 {
      Pow2Add(152 - e, 35);
      Pow2Add(32, 3);
      Pow2Constants();
      hide Pow2;
      var k := t * Pow2(152 - e);
      MulAssoc(t, Pow2(152 - e), TWO_35);
      ModUnique(g, 8, k * TWO_32, 0);
      ModUnique(g / 8, TWO_32, k, 0);
    }
  }

  lemma IsSplitProduct(r: ModResult, x: real, neg: bool, t: nat, u: real, fps: nat)
    requires Split(x, t, u) && Value(r.whole) == (if neg then -(t as real) else t as real) && !r.v && r.fec == 0
    requires !Double(fps) ==> r.whole.l == 0
    requires if u == 0.0 then r.frac == ZERO_FAC
             else CorrectlyRounded(FpResult(r.frac, false, 0), u, neg, Truncating(fps), fps)
    ensures SplitsProduct(r, x, neg, t, u, fps)
  {
    hide CorrectlyRounded, Value, Split;
  }

  lemma WholeRemainder(g: nat, c: nat)
    requires c > 0 && c % 8 == 0
    ensures (g - g % c) % 8 == 0
    ensures g - g % c == g / c * c
  {
    var k, q, m := c / 8, g / c, g % c;
    assert c == 8 * k && g == q * c + m;
    EightFold(q, k);
    ModUnique(g - m, 8, q * k, 0);
  }

  lemma EightFold(q: int, k: int)
    ensures q * (8 * k) == q * k * 8
  {
  }

  lemma BothSpec(neg: bool, e: int, g: nat, fps: nat)
    requires TWO_58 <= g < TWO_59 && 129 <= e <= SplitLimit(Double(fps))
    ensures var m, r := BelowPoint(e, g), SplitSpec(neg, e, g, fps);
            && TWO_58 <= g - m < TWO_59 && (m == 0 || 0 < m * Pow2(e - 128) < TWO_59)
            && r.frac == FractionSpec(neg, m, e - 128, fps) && (m == 0 ==> r.frac == ZERO_FAC)
            && FpResult(r.whole, r.v, r.fec) == RoundPack(neg, e, g - m, false, fps)
  {
    BelowPointRange(e, g);
    hide RoundPack, Normalise;
  }

  /** z leaves less than one part in 2^57 of x. */
  ghost predicate AccountsFor(z: real, x: real) {
    z <= x && x - z < x * P2(-57)
  }

  /** How much of the product the split accounts for: all of it in single precision, and all but less than
      one part in 2^57 in double. */
  lemma SplitLoss(x: real, y: real, e: int, g: nat, z: real)
    requires TWO_58 <= g < TWO_59 && CutOf(g, y) && IsGuard(x, y, e) && IsScaled(z, g, e - 187)
    ensures AccountsFor(z, x)
    ensures y == g as real ==> x == z
  {
    CutWithin(g, y);
    hide *;
    ProductBinade(x, y, e, g);
    GuardGap(x, y, e, g, z);
    SmallGap(x, z, e);
  }

  lemma SmallGap(x: real, z: real, e: int)
    requires P2(e - 129) <= x && z <= x < z + P2(e - 186)
    ensures AccountsFor(z, x)
  {
    TopGap(e);
    hide P2;
    LossBound(x, z, P2(e - 129), P2(-57), P2(e - 186));
  }

  lemma CutWithin(g: nat, y: real)
    requires CutOf(g, y)
    ensures g as real <= y < g as real + 2.0
  {
  }

  lemma TopGap(e: int)
    ensures P2(e - 186) == P2(e - 129) * P2(-57)
  {
    hide P2;
    P2Add(e - 129, -57);
  }

  lemma GuardGap(x: real, y: real, e: int, g: nat, z: real)
    requires g as real <= y < g as real + 2.0 && IsGuard(x, y, e) && IsScaled(z, g, e - 187)
    ensures z <= x < z + P2(e - 186)
    ensures y == g as real ==> x == z
  {
    P2Step(e - 187);
    hide P2;
    OrderScaled(g as real, y, P2(e - 187), z, x);
    OrderScaled(y, g as real + 2.0, P2(e - 187), x, z + P2(e - 186));
  }

  lemma LossBound(x: real, z: real, b: real, p: real, gap: real)
    requires p > 0.0 && b <= x && x - z < gap && gap == b * p
    ensures x - z < x * p
  {
    ScaleMonotone(b, x, p);
  }

  /** While the product is below 2^56 (2^24 in single precision) the integer part is exactly the product
      truncated toward zero; in single precision integer plus unrounded fraction is the exact product. */
  lemma ModSplitsExactly(a: Fpac, b: Fpac, fps: nat) returns (t: nat, u: real)
    requires Exponent(a) != 0 && Exponent(b) != 0 && Clean(a, fps) && Clean(b, fps)
    requires Abs(ProductOf(a, b)) < P2(if Double(fps) then 56 else 24)
    ensures var x := Abs(ProductOf(a, b));
            && SplitsProduct(ModSpec(a, b, fps), x, Negative(a) != Negative(b), t, u, fps)
            && AccountsFor(t as real + u, x)
            && (!Double(fps) ==> t as real + u == x)
  {
    var x, neg := Abs(ProductOf(a, b)), Negative(a) != Negative(b);
    hide Value, Abs, Exponent, ModSpec, SplitSpec, SplitsProduct, P2, IsGuard, CutOf, BelowPoint, Negative;
    var e, g, y := SplitInput(a, b, fps);
    ProductBinade(x, y, e, g);
    ExponentBound(x, e, if Double(fps) then 56 else 24);
    if e <= 128 {
      AllFraction(neg, e, g, x, y, fps);
      t, u := 0, x;
      P2Positive(x, e);
    } else {
      u := BelowPoint(e, g) as real * P2(e - 187);
      assert IsScaled(u, BelowPoint(e, g), e - 187);
      hide *;
      t := g / Pow2(187 - e);
      BothParts(neg, e, g, x, y, t, u, fps);
      SplitLoss(x, y, e, g, t as real + u);
    }
  }

  lemma P2Positive(x: real, e: int)
    requires P2(e - 129) <= x
    ensures AccountsFor(x, x)
  {
    hide P2;
    PositiveProduct(x, P2(-57));
  }

  /** From there on the product is all integer: its truncation to working precision, and no fraction. */
  lemma ModAllInteger(a: Fpac, b: Fpac, fps: nat)
    requires Exponent(a) != 0 && Exponent(b) != 0 && Clean(a, fps) && Clean(b, fps)
    requires Abs(ProductOf(a, b)) >= P2(if Double(fps) then 56 else 24)
    ensures var r := ModSpec(a, b, fps);
            && r.frac == ZERO_FAC
            && CorrectlyRounded(FpResult(r.whole, r.v, r.fec), Abs(ProductOf(a, b)),
                                Negative(a) != Negative(b), true, fps)
  {
    var x, neg := Abs(ProductOf(a, b)), Negative(a) != Negative(b);
    hide Value, Abs, Exponent, ModSpec, P2, IsGuard, CorrectlyRounded, RoundPack, Negative;
    var e, g, y := SplitInput(a, b, fps);
    ProductBinade(x, y, e, g);
    ExponentBound(x, e, if Double(fps) then 56 else 24);
    var s := if g as real <= y < g as real + 1.0 then 1 else 2;
    assert Gap(Double(fps), g, s) && g as real <= y < (g + s) as real;
    RoundPackCorrect(neg, e, g, false, fps, x, y, s);
  }
}
