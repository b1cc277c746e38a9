/** Subtraction of unlike signs: when it is the exact difference rounded once, and how far off it can be
    when it is not. Bits the alignment drops are dropped from the subtrahend, so the computed difference
    can only be too large, by less than one guard unit. */
module FpSubValue {
  import opened Arith
  import opened FpWord
  import opened FpValue
  import opened FpPack
  import opened FpAdd
  import opened FpAddValue

  /** What rounding adds before cutting. */
  function RoundTerm(fps: nat): nat {
    if Truncating(fps) then 0 else HalfPlace(Double(fps))
  }

  /** The guarded fraction sits exactly where the rounded result steps up. */
  predicate OnBoundary(g: nat, fps: nat) {
    (g + RoundTerm(fps)) % Place(Double(fps)) == 0
  }

  /** The computed difference in guard units at the larger exponent. */
  function Difference(a: Fpac, b: Fpac): nat
    requires Unsigned(b) <= Unsigned(a)
  {
    DifferenceRange(a, b);
    8 * Fraction(a) - Aligned(Fraction(b), Exponent(a) - Exponent(b))
  }

  /** The only failing family: alignment drops bits and the normalised difference is on a boundary. */
  predicate TieLost(a: Fpac, b: Fpac, fps: nat)
    requires Unsigned(b) <= Unsigned(a)
  {
    DifferenceRange(a, b);
    && Lost(Fraction(b), Exponent(a) - Exponent(b))
    && var g := Difference(a, b);
       OnBoundary(if g < TWO_58 then 2 * g else g, fps)
  }

  // ---- rounding something slightly below the computed fraction -----------------------------------------

  /** The exact y lies strictly below the computed g, by less than s. */
  predicate JustBelow(g: nat, s: nat, y: real) {
    && TWO_58 <= g < TWO_59
    && (s == 1 || (s == 2 && g % 2 == 0 && g > TWO_58))
    && (g - s) as real < y < g as real
  }

  lemma NotOnBoundary(g: nat, s: nat, fps: nat)
    requires TWO_58 <= g < TWO_59 && (s == 1 || (s == 2 && g % 2 == 0)) && !OnBoundary(g, fps)
    ensures var k, p, c := Kept(g, !Truncating(fps), Double(fps)), Place(Double(fps)), RoundTerm(fps);
            k * p - c <= g - s && g <= (k + 1) * p - c
  {
    var h, c := HalfPlace(Double(fps)), RoundTerm(fps);
    assert h > 0 && h % 2 == 0 && (c == 0 || c == h) && Place(Double(fps)) == 2 * h;
    var p := Place(Double(fps));
    var k, r := (g + c) / p, (g + c) % p;
    assert g + c == k * p + r && r != 0;
    assert k == Kept(g, !Truncating(fps), Double(fps));
    hide *;
    BoundaryGap(g, s, c, h, p, k, r);
  }

  /** What is past a boundary is past it by a unit, and by two if everything is even. */
  lemma BoundaryGap(g: nat, s: nat, c: nat, h: nat, p: nat, k: nat, r: nat)
    requires p == 2 * h && h % 2 == 0 && (c == 0 || c == h) && g + c == k * p + r && 0 < r < p
    requires s <= g && (s == 1 || (s == 2 && g % 2 == 0))
    ensures k * p - c <= g - s && g <= (k + 1) * p - c
  {
    assert k * p == 2 * (k * h) && (k + 1) * p == k * p + p;
  }

  lemma IsOnBoundary(g: nat, s: nat, fps: nat)
    requires TWO_58 <= g < TWO_59 && (s == 1 || s == 2) && OnBoundary(g, fps)
    ensures var k, p, c := Kept(g, !Truncating(fps), Double(fps)), Place(Double(fps)), RoundTerm(fps);
            k >= 1 && (k - 1) * p - c <= g - s && g <= k * p - c
  {
    var p := Place(Double(fps));
    var n := g + RoundTerm(fps);
    MultipleSteps(n, p);
  }

  lemma MultipleSteps(n: nat, p: nat)
    requires p > 0 && n >= p && n % p == 0
    ensures n / p >= 1 && n / p * p == n && (n / p - 1) * p == n - p
  {
    DivBounds(n, p);
    MulMonotone(n / p + 1, 1, p);
    assert n == n / p * p + n % p;
  }

  lemma BinadeCounts(g: nat, dbl: bool)
    requires TWO_58 <= g < TWO_59
    ensures Full(dbl) / 2 * Place(dbl) == TWO_58 && Full(dbl) * Place(dbl) == TWO_59
  {
  }

  lemma BelowRoundsSame(e: int, g: nat, s: nat, y: real, x: real, fps: nat)
    requires JustBelow(g, s, y) && g > TWO_58 && IsGuard(x, y, e) && !OnBoundary(g, fps)
    ensures RoundsIn(x, Double(fps), Truncating(fps), e, Kept(g, !Truncating(fps), Double(fps)))
  {
    NotOnBoundary(g, s, fps);
    BinadeCounts(g, Double(fps));
    assert g - s >= TWO_58;
    hide Kept, RoundsIn, IsGuard, OnBoundary, P2;
    CountsRoundIn(e, g - s, s, Kept(g, !Truncating(fps), Double(fps)), !Truncating(fps), Double(fps), x, y);
  }

  lemma BelowRoundsLess(e: int, g: nat, s: nat, y: real, x: real, fps: nat)
    requires JustBelow(g, s, y) && g > TWO_58 && IsGuard(x, y, e) && OnBoundary(g, fps)
    ensures Kept(g, !Truncating(fps), Double(fps)) >= 1
    ensures RoundsIn(x, Double(fps), Truncating(fps), e, Kept(g, !Truncating(fps), Double(fps)) - 1)
  {
    IsOnBoundary(g, s, fps);
    BinadeCounts(g, Double(fps));
    assert g - s >= TWO_58;
    hide Kept, RoundsIn, IsGuard, OnBoundary, P2;
    CountsRoundIn(e, g - s, s, Kept(g, !Truncating(fps), Double(fps)) - 1, !Truncating(fps), Double(fps), x, y);
  }

  /** At the bottom of a binade the exact value is in the binade below, where rounding carries it back up. */
  lemma BelowBottom(e: int, y: real, x: real, fps: nat)
    requires (TWO_58 - 1) as real < y < TWO_58 as real && IsGuard(x, y, e)
    ensures RoundsIn(x, Double(fps), Truncating(fps), e - 1,
                     if Truncating(fps) then Full(Double(fps)) - 1 else Full(Double(fps)))
  {
    HalveUnit(x, y, e);
    var f, p := Full(Double(fps)), Place(Double(fps));
    BinadeCounts(TWO_58, Double(fps));
    assert (f + 1) * p == TWO_59 + p && (f - 1) * p == TWO_59 - p;
    assert RoundTerm(fps) <= p / 2 && p >= 8;
    hide Full, Place, RoundsIn, IsGuard, P2;
    CountsRoundIn(e - 1, TWO_59 - 2, 2, if Truncating(fps) then f - 1 else f, !Truncating(fps), Double(fps),
                  x, 2.0 * y);
  }

  lemma BottomBoundary(fps: nat)
    ensures OnBoundary(TWO_58, fps) <==> Truncating(fps)
    ensures Kept(TWO_58, !Truncating(fps), Double(fps)) == Full(Double(fps)) / 2
  {
  }

  /** Off the boundary the computed fraction rounds exactly as the exact difference does. */
  lemma OffBoundary(e: int, g: nat, s: nat, y: real, x: real, fps: nat, e': int, n: nat)
    requires JustBelow(g, s, y) && IsGuard(x, y, e) && !OnBoundary(g, fps)
    requires Renormalised(Double(fps), e, Kept(g, !Truncating(fps), Double(fps)), e', n)
    ensures RoundsTo(x, Double(fps), Truncating(fps), e', n)
  {
    if g > TWO_58 {
      BelowRoundsSame(e, g, s, y, x, fps);
    } else {
      BottomBoundary(fps);
      BelowBottom(e, y, x, fps);
      assert Renormalised(Double(fps), e - 1, Full(Double(fps)), e', n);
    }
    hide RoundsIn, IsGuard, OnBoundary, Kept, P2;
  }

  /** (e, n) is one unit in the last place above the positive real x rounded. */
  ghost predicate RoundsUpTo(x: real, dbl: bool, trunc: bool, e: int, n: nat) {
    exists b: int, k: nat ::
      k < Full(dbl) && RoundsIn(x, dbl, trunc, b, k) && Renormalised(dbl, b, k + 1, e, n)
  }

  /** On the boundary it does not: it is one unit too large. */
  lemma OnBoundaryDiffers(e: int, g: nat, s: nat, y: real, x: real, fps: nat, e': int, n: nat)
    requires JustBelow(g, s, y) && IsGuard(x, y, e) && OnBoundary(g, fps)
    requires Renormalised(Double(fps), e, Kept(g, !Truncating(fps), Double(fps)), e', n)
    ensures !RoundsTo(x, Double(fps), Truncating(fps), e', n) && RoundsUpTo(x, Double(fps), Truncating(fps), e', n)
  {
    var dbl, trunc := Double(fps), Truncating(fps);
    var k := Kept(g, !trunc, dbl);
    var b, l := e, k - 1;
    if g > TWO_58 {
      BelowRoundsLess(e, g, s, y, x, fps);
    } else {
      BottomBoundary(fps);
      BelowBottom(e, y, x, fps);
      b, l := e - 1, Full(dbl) - 1;
    }
    KeptAtMostFull(g, fps);
    hide RoundsIn, IsGuard, OnBoundary, Kept, P2;
    assert Renormalised(dbl, b, l + 1, e', n);
    assert Renormalised(dbl, b, l, b, l);
    assert RoundsTo(x, dbl, trunc, b, l);
    if RoundsTo(x, dbl, trunc, e', n) {
      RoundingUnique(x, dbl, trunc, b, l, e', n);
    }
  }

  lemma KeptAtMostFull(g: nat, fps: nat)
    requires TWO_58 <= g < TWO_59
    ensures Kept(g, !Truncating(fps), Double(fps)) <= Full(Double(fps))
  {
    DivMonotone(g + RoundTerm(fps), TWO_59 + RoundTerm(fps), Place(Double(fps)));
  }

  // ---- a delivered word determines its exponent and fraction -------------------------------------------------

  lemma RoundedRange(x: real, dbl: bool, trunc: bool, e: int, n: nat)
    requires RoundsTo(x, dbl, trunc, e, n)
    ensures Full(dbl) / 2 <= n < Full(dbl)
  {
    hide RoundsIn;
    var b, k: nat :| RoundsIn(x, dbl, trunc, b, k) && Renormalised(dbl, b, k, e, n);
    PlaceRange(x, dbl, trunc, b, k);
  }

  lemma PlaceRange(x: real, dbl: bool, trunc: bool, b: int, k: nat)
    requires RoundsIn(x, dbl, trunc, b, k)
    ensures Full(dbl) / 2 <= k <= Full(dbl)
    ensures trunc ==> k < Full(dbl)
  {
    hide P2, Ulp, Full;
    var lo, hi := (Full(dbl) / 2) as real, Full(dbl) as real;
    var d := if trunc then 0.0 else 0.5;
    assert Between(k as real - d, x, k as real + (1.0 - d), Ulp(dbl, b));
    CutOrder(lo, k as real + (1.0 - d), x, Ulp(dbl, b));
    CutOrder(k as real - d, hi, x, Ulp(dbl, b));
  }

  lemma DeliversInjective(res: FpResult, dbl: bool, fps: nat, neg: bool, e1: int, n1: nat, e2: int, n2: nat)
    requires 1 <= e1 <= 255 && Full(dbl) / 2 <= n1 < Full(dbl) && Full(dbl) / 2 <= n2 < Full(dbl)
    requires Delivers(res, dbl, fps, neg, e1, n1) && Delivers(res, dbl, fps, neg, e2, n2)
    ensures e1 == e2 && n1 == n2
  {
    assert res.fac.h != 0;
    assert 1 <= e2 <= 255;
    var m1, m2 := if dbl then n1 / TWO_32 else n1, if dbl then n2 / TWO_32 else n2;
    assert res.fac.h == (if neg then TWO_31 else 0) + e1 % 256 * TWO_23 + m1 % TWO_23;
    assert res.fac.h == (if neg then TWO_31 else 0) + e2 % 256 * TWO_23 + m2 % TWO_23;
    assert dbl ==> n1 % TWO_32 == n2 % TWO_32;
    hide FpsBit, Delivers, Holds;
    FractionHigh(n1, dbl);
    FractionHigh(n2, dbl);
    SameFields(e1, m1, e2, m2);
    if dbl {
      DivBounds(n1, TWO_32);
    }
  }

  lemma FractionHigh(n: nat, dbl: bool)
    requires Full(dbl) / 2 <= n < Full(dbl)
    ensures TWO_23 <= (if dbl then n / TWO_32 else n) < TWO_24
  {
    if dbl {
      DivBounds(n, TWO_32);
    }
  }

  lemma SameFields(e1: nat, m1: nat, e2: nat, m2: nat)
    requires e1 <= 255 && e2 <= 255 && TWO_23 <= m1 < TWO_24 && TWO_23 <= m2 < TWO_24
    requires e1 % 256 * TWO_23 + m1 % TWO_23 == e2 % 256 * TWO_23 + m2 % TWO_23
    ensures e1 == e2 && m1 == m2
  {
    ModUnique(m1, TWO_23, 1, m1 - TWO_23);
    ModUnique(m2, TWO_23, 1, m2 - TWO_23);
  }

  // ---- the difference as delivered ---------------------------------------------------------------------------

  lemma DifferenceInGuard(a: Fpac, b: Fpac)
    requires Exponent(a) != 0 && Exponent(b) != 0 && Negative(a) != Negative(b) && Unsigned(b) <= Unsigned(a)
    ensures Exponent(b) <= Exponent(a)
    ensures var y := (8 * Fraction(a)) as real - ExactAligned(Fraction(b), Exponent(a) - Exponent(b));
            && IsGuard(Abs(Value(a) + Value(b)), y, Exponent(a)) && y >= 0.0
            && (Value(a) + Value(b) == 0.0 <==> y == 0.0)
  {
    hide *;
    MagnitudeOrder(a, b);
    MagnitudesInGuard(a, b);
    ValueSigned(a);
    ValueSigned(b);
    AbsSum(Value(a), Value(b), Magnitude(a), Magnitude(b), Negative(a), Negative(b));
    AbsZero(Value(a) + Value(b));
    GuardSign(Abs(Value(a) + Value(b)),
              (8 * Fraction(a)) as real - ExactAligned(Fraction(b), Exponent(a) - Exponent(b)), Exponent(a));
  }

  lemma AbsZero(x: real)
    ensures Abs(x) == 0.0 <==> x == 0.0
  {
  }

  /** Normalising keeps the number. */
  lemma {:induction false} NormaliseGuard(x: real, e: int, g: nat)
    requires 0 < g < TWO_59 && IsGuard(x, g as real, e)
    ensures var (e', g') := Normalise(e, g); IsGuard(x, g' as real, e')
    decreases TWO_59 - g
  {
    hide IsGuard;
    if g < TWO_58 {
      HalveUnit(x, g as real, e);
      assert (2 * g) as real == 2.0 * g as real;
      NormaliseGuard(x, e - 1, 2 * g);
    }
  }

  /** With no bits dropped the difference is exact, so packing it rounds it once. */
  lemma KeptDifference(neg: bool, e: int, g: nat, fps: nat, x: real)
    requires 0 < g < TWO_59 && IsGuard(x, g as real, e)
    ensures CorrectlyRounded(RoundPack(neg, Normalise(e, g).0, Normalise(e, g).1, true, fps), x, neg,
                             Truncating(fps), fps)
  {
    NormaliseGuard(x, e, g);
    var (e', g') := Normalise(e, g);
    hide Normalise, IsGuard, CorrectlyRounded, RoundPack;
    RoundPackCorrect(neg, e', g', true, fps, x, g' as real, 1);
  }

  lemma LostFar(f1: nat, f2: nat, d: nat)
    requires TWO_55 <= f1 < TWO_56 && f2 < TWO_56 && Lost(f2, d)
    ensures d >= 4 && TWO_58 - TWO_55 <= 8 * f1 - Aligned(f2, d) <= 8 * f1
  {
    if d <= 3 {
      NoneLost(f2, d);
    }
    Pow2Monotone(4, d);
    assert Pow2(4) == 16;
    hide Pow2, Lost;
    MulMonotone(16, Pow2(d), TWO_55);
    BoundQuotient(8 * f2, Pow2(d), TWO_55);
    NonNegativeQuotient(8 * f2, Pow2(d));
  }

  lemma NormaliseOnce(e: int, g: nat)
    requires TWO_58 - TWO_55 <= g < TWO_59
    ensures Normalise(e, g) == if g < TWO_58 then (e - 1, 2 * g) else (e, g)
  {
  }

  /** What is delivered is one unit in the last place more than it should be. */
  ghost predicate DeliversUp(res: FpResult, x: real, neg: bool, fps: nat) {
    exists e: int, n: nat ::
      RoundsUpTo(x, Double(fps), Truncating(fps), e, n) && Delivers(res, Double(fps), fps, neg, e, n)
  }

  /** Packing a difference that lost bits is right exactly off the boundary. */
  lemma LostDifference(neg: bool, e: int, g: nat, s: nat, y: real, x: real, fps: nat)
    requires JustBelow(g, s, y) && IsGuard(x, y, e) && 1 <= e <= 255
    requires e < 255 || g + RoundTerm(fps) < TWO_59
    ensures CorrectlyRounded(RoundPack(neg, e, g, true, fps), x, neg, Truncating(fps), fps)
       <==> !OnBoundary(g, fps)
    ensures OnBoundary(g, fps) ==> DeliversUp(RoundPack(neg, e, g, true, fps), x, neg, fps)
  {
    var dbl, trunc := Double(fps), Truncating(fps);
    var res := RoundPack(neg, e, g, true, fps);
    RoundPackDelivers(neg, e, g, true, fps);
    var (e', g') := Rounded(e, g, !trunc, dbl);
    var n := if dbl then g' / 8 else g' / TWO_35;
    assert 1 <= e' <= 255 && Full(dbl) / 2 <= n < Full(dbl) by {
      DeliveredRange(e, g, fps);
    }
    hide Rounded, RoundPack, Delivers, Renormalised, IsGuard, JustBelow, OnBoundary, RoundsTo, RoundsUpTo, Kept, P2;
    if OnBoundary(g, fps) {
      OnBoundaryDiffers(e, g, s, y, x, fps, e', n);
      if CorrectlyRounded(res, x, neg, trunc, fps) {
        var e2: int, n2: nat :| RoundsTo(x, dbl, trunc, e2, n2) && Delivers(res, dbl, fps, neg, e2, n2);
        RoundedRange(x, dbl, trunc, e2, n2);
        DeliversInjective(res, dbl, fps, neg, e', n, e2, n2);
      }
    } else {
      OffBoundary(e, g, s, y, x, fps, e', n);
    }
  }

  lemma DeliveredRange(e: int, g: nat, fps: nat)
    requires TWO_58 <= g < TWO_59 && 1 <= e <= 255
    requires e < 255 || g + RoundTerm(fps) < TWO_59
    ensures var (e', g') := Rounded(e, g, !Truncating(fps), Double(fps));
            var n := if Double(fps) then g' / 8 else g' / TWO_35;
            1 <= e' <= 255 && Full(Double(fps)) / 2 <= n < Full(Double(fps))
  {
  }

  lemma ShortDifference(a: Fpac, b: Fpac, fps: nat)
    requires Unsigned(b) <= Unsigned(a) && Clean(a, fps)
    ensures Difference(a, b) + RoundTerm(fps) < TWO_59
  {
    var f := Fraction(a);
    AlignedRange(Fraction(b), 0);
    WordFields(a);
    assert Difference(a, b) <= 8 * f;
    if Double(fps) {
      assert 8 * f <= TWO_59 - 8;
    } else {
      assert f == f / TWO_32 * TWO_32;
    }
  }

  lemma LostBelow(a: Fpac, b: Fpac)
    requires Exponent(a) != 0 && Exponent(b) != 0 && Unsigned(b) <= Unsigned(a)
    requires Exponent(b) <= Exponent(a) && Lost(Fraction(b), Exponent(a) - Exponent(b))
    ensures var g := Difference(a, b);
            var y := (8 * Fraction(a)) as real - ExactAligned(Fraction(b), Exponent(a) - Exponent(b));
            && Exponent(a) >= 5 && TWO_58 - TWO_55 <= g < TWO_59
            && (g as real) - 1.0 < y < g as real
  {
    var d := Exponent(a) - Exponent(b);
    LostFar(Fraction(a), Fraction(b), d);
    AlignedCut(Fraction(b), d);
    hide Lost, Fraction, Aligned, ExactAligned, Exponent, Unsigned;
  }

  lemma LostPacked(neg: bool, e: int, g: nat, y: real, x: real, fps: nat)
    requires TWO_58 - TWO_55 <= g && g + RoundTerm(fps) < TWO_59 && 5 <= e <= 255
    requires g as real - 1.0 < y < g as real && IsGuard(x, y, e)
    ensures CorrectlyRounded(RoundPack(neg, Normalise(e, g).0, Normalise(e, g).1, true, fps), x, neg,
                             Truncating(fps), fps)
       <==> !OnBoundary(if g < TWO_58 then 2 * g else g, fps)
    ensures OnBoundary(if g < TWO_58 then 2 * g else g, fps) ==>
              DeliversUp(RoundPack(neg, Normalise(e, g).0, Normalise(e, g).1, true, fps), x, neg, fps)
  {
    NormaliseOnce(e, g);
    hide Normalise, IsGuard, OnBoundary, CorrectlyRounded, DeliversUp, RoundPack;
    if g < TWO_58 {
      HalveUnit(x, y, e);
      assert JustBelow(2 * g, 2, 2.0 * y);
      LostDifference(neg, e - 1, 2 * g, 2, 2.0 * y, x, fps);
    } else {
      assert JustBelow(g, 1, y);
      LostDifference(neg, e, g, 1, y, x, fps);
    }
  }

  lemma OrderedLost(a: Fpac, b: Fpac, fps: nat)
    requires Unsigned(b) <= Unsigned(a) && Clean(a, fps)
    requires Exponent(a) != 0 && Exponent(b) != 0 && Negative(a) != Negative(b)
    requires Exponent(b) <= Exponent(a) && Lost(Fraction(b), Exponent(a) - Exponent(b))
    ensures CorrectlyRounded(OrderedAddSpec(a, b, fps), Abs(Value(a) + Value(b)), Negative(a), Truncating(fps), fps)
       <==> !TieLost(a, b, fps)
    ensures TieLost(a, b, fps) ==> DeliversUp(OrderedAddSpec(a, b, fps), Abs(Value(a) + Value(b)), Negative(a), fps)
  {
    var d, g, x := Exponent(a) - Exponent(b), Difference(a, b), Abs(Value(a) + Value(b));
    var y := (8 * Fraction(a)) as real - ExactAligned(Fraction(b), d);
    LostBelow(a, b);
    ShortDifference(a, b, fps);
    assert TieLost(a, b, fps) <==> OnBoundary(if g < TWO_58 then 2 * g else g, fps);
    assert g == 8 * Fraction(a) - Aligned(Fraction(b), d);
    assert g > 0;
    if d >= 60 {
      FarAligned(Fraction(b), d);
      NormaliseOnce(Exponent(a), g);
      assert Normalise(Exponent(a), g) == (Exponent(a), 8 * Fraction(a));
    }
    hide *;
    DifferenceInGuard(a, b);
    OrderedSpecCases(a, b, fps);
    OperandCorrect(a, fps, x);
    LostPacked(Negative(a), Exponent(a), g, y, x, fps);
    OperandUp(a, fps, x);
  }

  lemma OperandUp(a: Fpac, fps: nat, x: real)
    requires Exponent(a) != 0 && Clean(a, fps)
    ensures DeliversUp(RoundPack(Negative(a), Exponent(a), 8 * Fraction(a), true, fps), x, Negative(a), fps) ==>
            DeliversUp(FpResult(a, false, 0), x, Negative(a), fps)
  {
    PackReturns(a, fps);
    assert a.h != 0;
    var r1 := RoundPack(Negative(a), Exponent(a), 8 * Fraction(a), true, fps);
    var r2, neg := FpResult(a, false, 0), Negative(a);
    hide RoundPack, RoundsUpTo, Delivers, Exponent, Fraction, Negative, Double;
    forall e: int, n: nat | Delivers(r1, Double(fps), fps, neg, e, n)
      ensures Delivers(r2, Double(fps), fps, neg, e, n)
    {
      SameDelivery(r1, r2, Double(fps), fps, neg, e, n);
    }
  }

  lemma OrderedKept(a: Fpac, b: Fpac, fps: nat)
    requires Unsigned(b) <= Unsigned(a)
    requires Exponent(a) != 0 && Exponent(b) != 0 && Negative(a) != Negative(b)
    requires Exponent(b) <= Exponent(a) && !Lost(Fraction(b), Exponent(a) - Exponent(b))
    ensures Value(a) + Value(b) == 0.0 ==> OrderedAddSpec(a, b, fps) == FpResult(ZERO_FAC, false, 0)
    ensures Value(a) + Value(b) != 0.0 ==>
              CorrectlyRounded(OrderedAddSpec(a, b, fps), Abs(Value(a) + Value(b)), Negative(a), Truncating(fps), fps)
  {
    var d, x := Exponent(a) - Exponent(b), Abs(Value(a) + Value(b));
    var g := 8 * Fraction(a) - Aligned(Fraction(b), d);
    var y := (8 * Fraction(a)) as real - ExactAligned(Fraction(b), d);
    if d >= 60 {
      FarLost(Fraction(b), d);
    }
    assert y == g as real by {
      AlignedCut(Fraction(b), d);
    }
    hide *;
    DifferenceInGuard(a, b);
    OrderedSpecCases(a, b, fps);
    assert g == 0 <==> y == 0.0;
    if g != 0 {
      KeptDifference(Negative(a), Exponent(a), g, fps, x);
    }
  }

  lemma FarLost(f2: nat, d: nat)
    requires TWO_55 <= f2 < TWO_56 && d >= 60
    ensures Lost(f2, d)
  {
    Pow2Constants();
    Pow2Monotone(59, d);
    hide Pow2;
    ModUnique(8 * f2, Pow2(d), 0, 8 * f2);
  }

  /** Subtraction of magnitudes delivers the exact difference rounded once if and only if alignment drops
      no bits or the normalised difference is off a rounding boundary; cancellation to zero is exact. When it
      does not, it delivers one unit in the last place too many. */
  lemma SubtractCorrectIff(a: Fpac, b: Fpac, fps: nat)
    requires Clean(a, fps) && Clean(b, fps)
    requires Exponent(a) != 0 && Exponent(b) != 0 && Negative(a) != Negative(b)
    ensures Value(a) + Value(b) == 0.0 ==> AddSpec(a, b, fps) == FpResult(ZERO_FAC, false, 0)
    ensures Value(a) + Value(b) != 0.0 ==>
              (CorrectlyRounded(AddSpec(a, b, fps), Abs(Value(a) + Value(b)), Negative(Larger(a, b)),
                                Truncating(fps), fps)
               <==> !TieLost(Larger(a, b), Smaller(a, b), fps))
    ensures TieLost(Larger(a, b), Smaller(a, b), fps) ==>
              DeliversUp(AddSpec(a, b, fps), Abs(Value(a) + Value(b)), Negative(Larger(a, b)), fps)
  {
    var l, s := Larger(a, b), Smaller(a, b);
    assert Value(a) + Value(b) == Value(l) + Value(s);
    assert AddSpec(a, b, fps) == OrderedAddSpec(l, s, fps);
    ExponentOrder(l, s);
    if Lost(Fraction(s), Exponent(l) - Exponent(s)) {
      DifferenceInGuard(l, s);
      LostBelow(l, s);
      hide *;
      OrderedLost(l, s, fps);
    } else {
      assert !TieLost(l, s, fps);
      hide *;
      OrderedKept(l, s, fps);
    }
  }

  /** With exponents at most three apart the guard bits hold everything, so the difference is always the exact
      one rounded once. */
  lemma CloseSubtractCorrect(a: Fpac, b: Fpac, fps: nat)
    requires Clean(a, fps) && Clean(b, fps)
    requires Exponent(a) != 0 && Exponent(b) != 0 && Negative(a) != Negative(b) && Value(a) + Value(b) != 0.0
    requires -3 <= Exponent(a) - Exponent(b) <= 3
    ensures CorrectlyRounded(AddSpec(a, b, fps), Abs(Value(a) + Value(b)), Negative(Larger(a, b)),
                             Truncating(fps), fps)
  {
    var l, s := Larger(a, b), Smaller(a, b);
    ExponentOrder(l, s);
    NoneLost(Fraction(s), Exponent(l) - Exponent(s));
    assert !TieLost(l, s, fps);
    hide *;
    SubtractCorrectIff(a, b, fps);
  }

  // ---- how far off, and when exact -----------------------------------------------------------------------------

  /** What is delivered differs from x by less than three quarters of its last place. */
  ghost predicate DeliversNear(res: FpResult, x: real, neg: bool, fps: nat) {
    exists e: int, n: nat :: Delivers(res, Double(fps), fps, neg, e, n) && Near(n, x, Ulp(Double(fps), e))
  }

  ghost predicate Near(n: nat, x: real, u: real) {
    Abs(n as real * u - x) < 0.75 * u
  }

  /** What is delivered is x. */
  ghost predicate DeliversExactly(res: FpResult, x: real, neg: bool, fps: nat) {
    exists e: int, n: nat :: Delivers(res, Double(fps), fps, neg, e, n) && Counts(n, x, Ulp(Double(fps), e))
  }

  ghost predicate Counts(n: nat, x: real, u: real) {
    x == n as real * u
  }

  lemma NearCount(k: nat, g: nat, p: nat, y: real, gu: real, x: real, u: real)
    requires p >= 8 && p % 2 == 0 && k == (g + p / 2) / p
    requires g as real - 2.0 < y <= g as real
    requires gu > 0.0 && x == y * gu && u == p as real * gu
    ensures Near(k, x, u)
  {
    DivBounds(g + p / 2, p);
    assert (k + 1) * p == k * p + p;
    RealProduct(k, p);
    var z := (k * p) as real - y;
    var h := 0.75 * p as real;
    assert -h < z < h;
    var gap := z * gu;
    assert gap == k as real * u - x by {
      assert k as real * p as real * gu == k as real * (p as real * gu);
    }
    ScaleMonotone(-h, z, gu);
    ScaleMonotone(z, h, gu);
    assert h * gu == 0.75 * u && -h * gu == -(h * gu);
    IsNear(k, x, u, gap);
  }

  lemma IsNear(n: nat, x: real, u: real, gap: real)
    requires gap == n as real * u - x && -0.75 * u < gap < 0.75 * u
    ensures Near(n, x, u)
  {
  }

  /** A carry out keeps the number and only enlarges its last place. */
  lemma NearCarried(dbl: bool, x: real, b: int, k: nat, e: int, n: nat)
    requires Near(k, x, Ulp(dbl, b)) && Renormalised(dbl, b, k, e, n)
    ensures Near(n, x, Ulp(dbl, e))
  {
    if k == Full(dbl) {
      P2Step(b - if dbl then 184 else 152);
      assert Ulp(dbl, e) == 2.0 * Ulp(dbl, b);
      assert k as real == 2.0 * n as real;
      hide Ulp, P2, Full;
      var u := Ulp(dbl, b);
      assert 2.0 * n as real * u == n as real * (2.0 * u);
    }
  }

  lemma KeptNear(e: int, g: nat, y: real, x: real, dbl: bool)
    requires g as real - 2.0 < y <= g as real && IsGuard(x, y, e)
    ensures Near(Kept(g, true, dbl), x, Ulp(dbl, e))
  {
    PlaceEven(dbl);
    GuardUnit(dbl, e);
    IsGuardUnit(x, y, e);
    assert Kept(g, true, dbl) == (g + Place(dbl) / 2) / Place(dbl);
    hide *;
    NearCount(Kept(g, true, dbl), g, Place(dbl), y, P2(e - 187), x, Ulp(dbl, e));
  }

  lemma PackNear(neg: bool, e: int, g: nat, y: real, x: real, fps: nat)
    requires TWO_58 <= g < TWO_59 && !Truncating(fps)
    requires g as real - 2.0 < y <= g as real && IsGuard(x, y, e)
    ensures DeliversNear(RoundPack(neg, e, g, true, fps), x, neg, fps)
  {
    var dbl := Double(fps);
    RoundPackDelivers(neg, e, g, true, fps);
    var (e', g') := Rounded(e, g, true, dbl);
    var n := if dbl then g' / 8 else g' / TWO_35;
    hide *;
    KeptNear(e, g, y, x, dbl);
    NearCarried(dbl, x, e, Kept(g, true, dbl), e', n);
    NearDelivered(RoundPack(neg, e, g, true, fps), x, neg, fps, e', n);
  }

  lemma NearDelivered(res: FpResult, x: real, neg: bool, fps: nat, e: int, n: nat)
    requires Delivers(res, Double(fps), fps, neg, e, n) && Near(n, x, Ulp(Double(fps), e))
    ensures DeliversNear(res, x, neg, fps)
  {
    hide Delivers, Near, Ulp;
  }

  /** A correctly rounded result is within half a place. */
  lemma CorrectIsNear(res: FpResult, x: real, neg: bool, fps: nat)
    requires CorrectlyRounded(res, x, neg, false, fps)
    ensures DeliversNear(res, x, neg, fps)
  {
    var dbl := Double(fps);
    hide Delivers, RoundsIn, Near, Renormalised;
    var e: int, n: nat :| RoundsTo(x, dbl, false, e, n) && Delivers(res, dbl, fps, neg, e, n);
    var b: int, k: nat :| RoundsIn(x, dbl, false, b, k) && Renormalised(dbl, b, k, e, n);
    RoundedNear(x, dbl, b, k);
    NearCarried(dbl, x, b, k, e, n);
    NearDelivered(res, x, neg, fps, e, n);
  }

  lemma RoundedNear(x: real, dbl: bool, b: int, k: nat)
    requires RoundsIn(x, dbl, false, b, k)
    ensures Near(k, x, Ulp(dbl, b))
  {
    hide P2, Ulp, Full;
    var u := Ulp(dbl, b);
    assert (k as real - 0.5) * u == k as real * u - 0.5 * u;
    assert (k as real + 0.5) * u == k as real * u + 0.5 * u;
  }

  lemma PlaceEven(dbl: bool)
    ensures Place(dbl) % 2 == 0 && Place(dbl) >= 8
  {
  }

  lemma SameNear(r1: FpResult, r2: FpResult, x: real, neg: bool, fps: nat)
    requires r1.v == r2.v && r1.fec == r2.fec && r1.fac.h == r2.fac.h && (Double(fps) ==> r1.fac == r2.fac)
    requires r1.fac.h != 0 && DeliversNear(r1, x, neg, fps)
    ensures DeliversNear(r2, x, neg, fps)
  {
    hide Delivers, Near;
    var e: int, n: nat :| Delivers(r1, Double(fps), fps, neg, e, n) && Near(n, x, Ulp(Double(fps), e));
    SameDelivery(r1, r2, Double(fps), fps, neg, e, n);
  }

  lemma OrderedLostNear(a: Fpac, b: Fpac, fps: nat)
    requires Unsigned(b) <= Unsigned(a) && Clean(a, fps) && !Truncating(fps)
    requires Exponent(a) != 0 && Exponent(b) != 0 && Negative(a) != Negative(b)
    requires Exponent(b) <= Exponent(a) && Lost(Fraction(b), Exponent(a) - Exponent(b))
    ensures DeliversNear(OrderedAddSpec(a, b, fps), Abs(Value(a) + Value(b)), Negative(a), fps)
  {
    var d, g, x := Exponent(a) - Exponent(b), Difference(a, b), Abs(Value(a) + Value(b));
    var y := (8 * Fraction(a)) as real - ExactAligned(Fraction(b), d);
    LostBelow(a, b);
    assert g == 8 * Fraction(a) - Aligned(Fraction(b), d) && g > 0;
    if d >= 60 {
      FarAligned(Fraction(b), d);
      NormaliseOnce(Exponent(a), g);
      assert Normalise(Exponent(a), g) == (Exponent(a), 8 * Fraction(a));
    }
    hide *;
    DifferenceInGuard(a, b);
    OrderedSpecCases(a, b, fps);
    LostNear(Negative(a), Exponent(a), g, y, x, fps);
    if d >= 60 {
      OperandNear(a, x, fps);
    }
  }

  lemma OperandNear(a: Fpac, x: real, fps: nat)
    requires Exponent(a) != 0 && Clean(a, fps)
    requires DeliversNear(RoundPack(Negative(a), Exponent(a), 8 * Fraction(a), true, fps), x, Negative(a), fps)
    ensures DeliversNear(FpResult(a, false, 0), x, Negative(a), fps)
  {
    PackReturns(a, fps);
    assert a.h != 0;
    hide *;
    SameNear(RoundPack(Negative(a), Exponent(a), 8 * Fraction(a), true, fps), FpResult(a, false, 0), x,
             Negative(a), fps);
  }

  lemma LostNear(neg: bool, e: int, g: nat, y: real, x: real, fps: nat)
    requires TWO_58 - TWO_55 <= g < TWO_59 && !Truncating(fps)
    requires g as real - 1.0 < y < g as real && IsGuard(x, y, e)
    ensures DeliversNear(RoundPack(neg, Normalise(e, g).0, Normalise(e, g).1, true, fps), x, neg, fps)
  {
    NormaliseOnce(e, g);
    hide IsGuard, DeliversNear, RoundPack, Normalise, Truncating;
    if g < TWO_58 {
      HalveUnit(x, y, e);
      PackNear(neg, e - 1, 2 * g, 2.0 * y, x, fps);
    } else {
      PackNear(neg, e, g, y, x, fps);
    }
  }

  lemma OrderedNear(a: Fpac, b: Fpac, fps: nat)
    requires Unsigned(b) <= Unsigned(a) && Clean(a, fps) && !Truncating(fps)
    requires Exponent(a) != 0 && Exponent(b) != 0 && Negative(a) != Negative(b) && Value(a) + Value(b) != 0.0
    ensures DeliversNear(OrderedAddSpec(a, b, fps), Abs(Value(a) + Value(b)), Negative(a), fps)
  {
    ExponentOrder(a, b);
    hide *;
    if Lost(Fraction(b), Exponent(a) - Exponent(b)) {
      OrderedLostNear(a, b, fps);
    } else {
      OrderedKept(a, b, fps);
      CorrectIsNear(OrderedAddSpec(a, b, fps), Abs(Value(a) + Value(b)), Negative(a), fps);
    }
  }

  /** In rounding mode every difference, the 60-place shortcut included, is off by less than 3/4 of the last
      place delivered. */
  lemma SubtractWithinThreeQuarters(a: Fpac, b: Fpac, fps: nat)
    requires Clean(a, fps) && Clean(b, fps) && !Truncating(fps)
    requires Exponent(a) != 0 && Exponent(b) != 0 && Negative(a) != Negative(b) && Value(a) + Value(b) != 0.0
    ensures DeliversNear(AddSpec(a, b, fps), Abs(Value(a) + Value(b)), Negative(Larger(a, b)), fps)
  {
    var l, s := Larger(a, b), Smaller(a, b);
    assert Value(a) + Value(b) == Value(l) + Value(s);
    assert AddSpec(a, b, fps) == OrderedAddSpec(l, s, fps);
    hide Value, Exponent, Negative, OrderedAddSpec, DeliversNear;
    OrderedNear(l, s, fps);
  }

  // ---- exact cancellation -----------------------------------------------------------------------------------------

  /** A fraction that is a whole number of places is packed as it is, in either rounding mode. */
  lemma PackWhole(neg: bool, e: int, g: nat, x: real, fps: nat)
    requires TWO_58 <= g < TWO_59 && g % Place(Double(fps)) == 0 && IsGuard(x, g as real, e)
    ensures DeliversExactly(RoundPack(neg, e, g, true, fps), x, neg, fps)
  {
    var dbl := Double(fps);
    RoundPackDelivers(neg, e, g, true, fps);
    WholeKept(e, g, fps);
    var (e', g') := Rounded(e, g, !Truncating(fps), dbl);
    var n := if dbl then g' / 8 else g' / TWO_35;
    hide *;
    WholeInPlaces(e, g, x, dbl, n);
    ExactDelivered(RoundPack(neg, e, g, true, fps), x, neg, fps, e', n);
  }

  lemma WholeInPlaces(e: int, g: nat, x: real, dbl: bool, n: nat)
    requires g == n * Place(dbl) && IsGuard(x, g as real, e)
    ensures Counts(n, x, Ulp(dbl, e))
  {
    hide *;
    GuardUnit(dbl, e);
    IsGuardUnit(x, g as real, e);
    RealProduct(n, Place(dbl));
    WholeCounts(n as real, Place(dbl) as real, P2(e - 187), Ulp(dbl, e), x, g as real);
    IsCount(n, x, Ulp(dbl, e));
  }

  lemma ExactDelivered(res: FpResult, x: real, neg: bool, fps: nat, e: int, n: nat)
    requires Delivers(res, Double(fps), fps, neg, e, n) && Counts(n, x, Ulp(Double(fps), e))
    ensures DeliversExactly(res, x, neg, fps)
  {
    hide Delivers, Counts, Ulp;
  }

  lemma IsCount(n: nat, x: real, u: real)
    requires x == n as real * u
    ensures Counts(n, x, u)
  {
  }

  lemma WholeCounts(n: real, p: real, gu: real, u: real, x: real, g: real)
    requires g == n * p && x == g * gu && u == p * gu
    ensures x == n * u
  {
  }

  lemma WholeKept(e: int, g: nat, fps: nat)
    requires TWO_58 <= g < TWO_59 && g % Place(Double(fps)) == 0
    ensures var (e', g') := Rounded(e, g, !Truncating(fps), Double(fps));
            e' == e && g == (if Double(fps) then g' / 8 else g' / TWO_35) * Place(Double(fps))
  {
    WholeKeptAt(g, RoundTerm(fps), Double(fps));
  }

  lemma WholeKeptAt(g: nat, c: nat, dbl: bool)
    requires g < TWO_59 && g % Place(dbl) == 0 && (c == 0 || c == HalfPlace(dbl))
    ensures g + c < TWO_59 && g == (g + c) / Place(dbl) * Place(dbl)
  {
    if dbl {
      DivUnique(g + c, 8, g / 8);
    } else {
      DivUnique(g + c, TWO_35, g / TWO_35);
    }
  }

  lemma WholeMultiple(g: nat, m: nat, p: nat)
    requires p > 0 && g % p == 0
    ensures g * m % p == 0
  {
    var q := g / p;
    assert g == q * p;
    assert q * p * m == q * m * p;
    ModUnique(q * m * p, p, q * m, 0);
  }

  lemma NormaliseWhole(e: int, g: nat, p: nat)
    requires 0 < g < TWO_58 && p > 0 && 2 * g % p == 0
    ensures Normalise(e, g).1 % p == 0
  {
    NormaliseExact(e - 1, 2 * g);
    WholeMultiple(2 * g, Pow2(e - 1 - Normalise(e - 1, 2 * g).0), p);
  }

  lemma NearlyAligned(f: nat, d: nat)
    requires d <= 1
    ensures Aligned(f, d) == if d == 0 then 8 * f else 4 * f
  {
    assert Pow2(0) == 1 && Pow2(1) == 2;
  }

  lemma CleanFraction(a: Fpac, fps: nat)
    requires Clean(a, fps) && !Double(fps)
    ensures Fraction(a) % TWO_32 == 0
  {
    WordFields(a);
  }

  lemma DoubledDifferenceWhole(a: Fpac, b: Fpac, fps: nat)
    requires Unsigned(b) <= Unsigned(a) && Clean(a, fps) && Clean(b, fps)
    requires Exponent(a) - Exponent(b) <= 1
    ensures 2 * Difference(a, b) % Place(Double(fps)) == 0
  {
    ExponentOrder(a, b);
    var f1, f2, d := Fraction(a), Fraction(b), Exponent(a) - Exponent(b);
    var q := Aligned(f2, d);
    assert Difference(a, b) == 8 * f1 - q;
    NearlyAligned(f2, d);
    if !Double(fps) {
      CleanFraction(a, fps);
      CleanFraction(b, fps);
    }
    hide *;
    WholeDifference(f1, f2, q, Double(fps));
  }

  lemma WholeDifference(f1: nat, f2: nat, q: nat, dbl: bool)
    requires q == 8 * f2 || q == 4 * f2
    requires !dbl ==> f1 % TWO_32 == 0 && f2 % TWO_32 == 0
    ensures 2 * (8 * f1 - q) % Place(dbl) == 0
  {
    if dbl {
      ModUnique(2 * (8 * f1 - q), 8, if q == 8 * f2 then 2 * f1 - 2 * f2 else 2 * f1 - f2, 0);
    } else {
      WholeSingle(f1, f2, q, f1 / TWO_32, f2 / TWO_32);
    }
  }

  lemma WholeSingle(f1: nat, f2: nat, q: nat, a: nat, b: nat)
    requires q == 8 * f2 || q == 4 * f2
    requires f1 == a * TWO_32 && f2 == b * TWO_32
    ensures 2 * (8 * f1 - q) % TWO_35 == 0
  {
    var k := if q == 8 * f2 then 2 * a - 2 * b else 2 * a - b;
    assert 2 * (8 * f1 - q) == k * TWO_35;
    ModUnique(2 * (8 * f1 - q), TWO_35, k, 0);
  }

  /** Massive cancellation is free: with exponents at most one apart and a normalising shift, what is
      delivered is the exact difference, and no rounding happens. */
  lemma CancellationExact(a: Fpac, b: Fpac, fps: nat)
    requires Clean(a, fps) && Clean(b, fps)
    requires Exponent(a) != 0 && Exponent(b) != 0 && Negative(a) != Negative(b)
    requires Exponent(Larger(a, b)) - Exponent(Smaller(a, b)) <= 1
    requires 0 < Difference(Larger(a, b), Smaller(a, b)) < TWO_58
    ensures DeliversExactly(AddSpec(a, b, fps), Abs(Value(a) + Value(b)), Negative(Larger(a, b)), fps)
  {
    var l, s := Larger(a, b), Smaller(a, b);
    assert Value(a) + Value(b) == Value(l) + Value(s);
    assert AddSpec(a, b, fps) == OrderedAddSpec(l, s, fps);
    ExponentOrder(l, s);
    var d := Exponent(l) - Exponent(s);
    NoneLost(Fraction(s), d);
    AlignedCut(Fraction(s), d);
    var g := 8 * Fraction(l) - Aligned(Fraction(s), d);
    assert g == Difference(l, s);
    assert Place(Double(fps)) > 0;
    var y := (8 * Fraction(l)) as real - ExactAligned(Fraction(s), d);
    assert y == g as real;
    DoubledDifferenceWhole(l, s, fps);
    NormaliseWhole(Exponent(l), g, Place(Double(fps)));
    CancelledDelivers(l, s, fps, g);
  }

  lemma CancelledDelivers(l: Fpac, s: Fpac, fps: nat, g: nat)
    requires Unsigned(s) <= Unsigned(l) && Exponent(s) <= Exponent(l) && Exponent(l) - Exponent(s) <= 1
    requires Exponent(l) != 0 && Exponent(s) != 0 && Negative(l) != Negative(s)
    requires 0 < g < TWO_58 && g == 8 * Fraction(l) - Aligned(Fraction(s), Exponent(l) - Exponent(s))
    requires g as real == (8 * Fraction(l)) as real - ExactAligned(Fraction(s), Exponent(l) - Exponent(s))
    requires Normalise(Exponent(l), g).1 % Place(Double(fps)) == 0
    ensures DeliversExactly(OrderedAddSpec(l, s, fps), Abs(Value(l) + Value(s)), Negative(l), fps)
  {
    var x, n := Abs(Value(l) + Value(s)), Normalise(Exponent(l), g);
    hide Value, Abs, Fraction, Aligned, ExactAligned, Unsigned, Exponent, Negative, OrderedAddSpec, RoundPack,
         DeliversExactly, Normalise, IsGuard;
    DifferenceInGuard(l, s);
    OrderedSpecCases(l, s, fps);
    NormaliseGuard(x, Exponent(l), g);
    PackWhole(Negative(l), n.0, n.1, x, fps);
  }

  // ---- the code does fail on some inputs --------------------------------------------------------------------------

  lemma TieExampleFields(a: Fpac, b: Fpac)
    requires a == Fpac(0x4200_0000, 0) && b == Fpac(0xC000_0000, 5)
    ensures Exponent(a) == 132 && Exponent(b) == 128 && !Negative(a) && Negative(b)
    ensures Fraction(a) == TWO_55 && Fraction(b) == TWO_55 + 5
    ensures Larger(a, b) == a && Smaller(a, b) == b
    ensures Double(FPS_D) && !Truncating(FPS_D)
  {
  }

  lemma TieExampleLost()
    ensures Lost(TWO_55 + 5, 4) && Aligned(TWO_55 + 5, 4) == TWO_55 / 2 + 2
  {
    assert Pow2(4) == 16;
  }

  lemma TieExampleBoundary(fps: nat)
    requires Double(fps) && !Truncating(fps)
    ensures OnBoundary(2 * (TWO_58 - TWO_55 / 2 - 2), fps) && TWO_58 - TWO_55 / 2 - 2 < TWO_58
  {
  }

  lemma TieExampleIsLost(a: Fpac, b: Fpac)
    requires a == Fpac(0x4200_0000, 0) && b == Fpac(0xC000_0000, 5)
    ensures Unsigned(b) <= Unsigned(a) && TieLost(a, b, FPS_D)
  {
    TieExampleFields(a, b);
    TieExampleLost();
    TieExampleBoundary(FPS_D);
    hide Lost, Aligned, OnBoundary, Exponent, Fraction;
    assert Difference(a, b) == TWO_58 - TWO_55 / 2 - 2;
  }

  /** 8 minus (1/2 plus five units of 2^-56) in double rounding mode: the dropped bit turns a value just
      below a tie into the tie, and the tie rounds up. */
  lemma TieExample()
    ensures var a, b := Fpac(0x4200_0000, 0), Fpac(0xC000_0000, 5);
            && Value(a) + Value(b) != 0.0
            && !CorrectlyRounded(AddSpec(a, b, FPS_D), Abs(Value(a) + Value(b)), false, false, FPS_D)
  {
    var a, b := Fpac(0x4200_0000, 0), Fpac(0xC000_0000, 5);
    TieExampleFields(a, b);
    TieExampleLost();
    TieExampleIsLost(a, b);
    assert Clean(a, FPS_D) && Clean(b, FPS_D);
    hide *;
    DifferenceInGuard(a, b);
    LostBelow(a, b);
    SubtractCorrectIff(a, b, FPS_D);
  }
}
