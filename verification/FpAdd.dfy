/** Normalising after cancellation, and the add instruction. Subtract is add with a sign flipped. */
module FpAdd {
  import opened Arith
  import opened FpWord
  import opened FpPack
  import opened FpMul

  // ---- left-normalising a guarded fraction ------------------------------------------------------

  /** Shift left, one place per exponent step, until the hidden bit is set. */
  function Normalise(exp: int, g: nat): (r: (int, nat))
    requires 0 < g < TWO_59
    ensures TWO_58 <= r.1 < TWO_59 && r.0 <= exp
    decreases TWO_59 - g
  {
    if g >= TWO_58 then (exp, g) else Normalise(exp - 1, 2 * g)
  }

  /** A rung of the ladder: n places at once are n single places. */
  lemma {:induction false} NormaliseRung(exp: int, g: nat, n: nat)
    requires 0 < g && 0 < g * Pow2(n) < TWO_59
    ensures g < TWO_59 && Normalise(exp, g) == Normalise(exp - n, g * Pow2(n))
    decreases n
  {
    RungStep(g, n);
    if n == 0 {
      assert Pow2(0) == 1;
    } else {
      NormaliseRung(exp - 1, 2 * g, n - 1);
    }
  }

  lemma RungStep(g: nat, n: nat)
    requires 0 < g && g * Pow2(n) < TWO_59
    ensures g < TWO_59
    ensures n > 0 ==> g < TWO_58 && 2 * g * Pow2(n - 1) == g * Pow2(n)
  {
    MulMonotone(1, Pow2(n), g);
    if n > 0 {
      MulMonotone(2, Pow2(n), g);
      assert Pow2(n) == 2 * Pow2(n - 1);
    }
  }

  /** No bit is lost: fraction times 2^exponent is the same before and after. */
  lemma {:induction false} NormaliseExact(exp: int, g: nat)
    requires 0 < g < TWO_59
    ensures var (e, g') := Normalise(exp, g); g' == g * Pow2(exp - e)
    decreases TWO_59 - g
  {
    var (e, g') := Normalise(exp, g);
    if g >= TWO_58 {
      assert Pow2(0) == 1;
    } else {
      NormaliseExact(exp - 1, 2 * g);
      assert Pow2(exp - e) == 2 * Pow2(exp - 1 - e);
      assert 2 * g * Pow2(exp - 1 - e) == g * (2 * Pow2(exp - 1 - e));
    }
  }

  lemma LowBitsOnly(f: Fpac, lo: nat, n: nat)
    requires Val(f) < TWO_59 && Bits(f.h, lo, n) == 0
    requires (lo == 3 && n == 24) || (lo == 15 && n == 12) || (lo == 21 && n == 6)
    ensures Val(f) * Pow2(n) < TWO_59
  {
    RungConstants();
    hide Pow2;
    var q := f.h / Pow2(lo);
    assert q < Pow2(n) by {
      DivBounds(f.h, Pow2(lo));
    }
    ModUnique(q, Pow2(n), 0, q);
    DivBounds(f.h, Pow2(lo));
  }

  lemma RungConstants()
    ensures Pow2(3) == 8 && Pow2(15) == 0x8000 && Pow2(21) == 0x20_0000
    ensures Pow2(24) == TWO_24 && Pow2(12) == 0x1000 && Pow2(6) == 0x40
  {
    Pow2Constants();
    assert Pow2(15) == 8 * Pow2(12);
    assert Pow2(21) == 8 * Pow2(18) == 64 * Pow2(15);
  }

  /** One rung of the 24/12/6 ladder: taken when the n bits from lo up are all clear. */
  method Rung(frac0: Fpac, exp0: int, lo: nat, n: nat) returns (frac: Fpac, exp: int)
    requires 0 < Val(frac0) < TWO_59
    requires (lo == 3 && n == 24) || (lo == 15 && n == 12) || (lo == 21 && n == 6)
    ensures 0 < Val(frac) < TWO_59 && Normalise(exp, Val(frac)) == Normalise(exp0, Val(frac0))
  {
    frac, exp := frac0, exp0;
    hide Pow2, Bits, Normalise;
    if Bits(frac.h, lo, n) == 0 {
      LowBitsOnly(frac, lo, n);
      MulMonotone(1, Val(frac), Pow2(n));
      Wrap(Val(frac) * Pow2(n), TWO_64);
      NormaliseRung(exp, Val(frac), n);
      frac := FLshK(frac, n);
      exp := exp - n;
    }
  }

  method NormaliseByOnes(frac0: Fpac, exp0: int) returns (frac: Fpac, exp: int)
    requires 0 < Val(frac0) < TWO_59
    ensures (exp, Val(frac)) == Normalise(exp0, Val(frac0))
  {
    frac, exp := frac0, exp0;
    HiddenBit(frac);
    while !GetBit(frac.h, 26)
      invariant 0 < Val(frac) < TWO_59 && Normalise(exp, Val(frac)) == Normalise(exp0, Val(frac0))
      invariant GetBit(frac.h, 26) <==> Val(frac) >= TWO_58
      decreases TWO_59 - Val(frac)
    {
      Wrap(Val(frac) * 2, TWO_64);
      frac := FLsh1(frac);
      exp := exp - 1;
      HiddenBit(frac);
    }
  }

  method NormaliseByLadder(frac0: Fpac, exp0: int) returns (frac: Fpac, exp: int)
    requires 0 < Val(frac0) < TWO_59
    ensures (exp, Val(frac)) == Normalise(exp0, Val(frac0))
  {
    frac, exp := Rung(frac0, exp0, 3, 24);
    frac, exp := Rung(frac, exp, 15, 12);
    frac, exp := Rung(frac, exp, 21, 6);
    frac, exp := NormaliseByOnes(frac, exp);
  }

  // ---- add --------------------------------------------------------------------------------------

  /** The smaller guarded fraction aligned to the larger; bits shifted out are dropped. */
  function Aligned(f2: nat, d: nat): nat {
    NonNegativeQuotient(8 * f2, Pow2(d));
    8 * f2 / Pow2(d)
  }

  function Larger(a: Fpac, b: Fpac): Fpac {
    if FLtAp(a, b) then b else a
  }

  function Smaller(a: Fpac, b: Fpac): Fpac {
    if FLtAp(a, b) then a else b
  }

  lemma UnsignedFields(f: Fpac)
    ensures Unsigned(f) == Exponent(f) * TWO_55 + (Fraction(f) - TWO_55)
  {
    var u := f.h % TWO_31;
    var k, m := f.h / TWO_31, f.h / TWO_23 % 256;
    assert f.h / TWO_23 == k * 256 + u / TWO_23 by {
      assert f.h == k * TWO_31 + u;
      DivShift(u, k * 256, TWO_23);
    }
    ModUnique(f.h / TWO_23, 256, k, u / TWO_23);
    assert u % TWO_23 == f.h % TWO_23;
  }

  /** Magnitude order is exponent order first, fraction order among equal exponents. */
  lemma ExponentOrder(a: Fpac, b: Fpac)
    requires Unsigned(b) <= Unsigned(a)
    ensures Exponent(b) <= Exponent(a)
    ensures Exponent(b) == Exponent(a) ==> Fraction(b) <= Fraction(a)
  {
    UnsignedFields(a);
    UnsignedFields(b);
  }

  lemma AlignedRange(f2: nat, d: nat)
    requires TWO_55 <= f2 < TWO_56
    ensures 0 <= Aligned(f2, d) <= 8 * f2
    ensures d == 0 ==> Aligned(f2, d) == 8 * f2
    ensures d >= 1 ==> Aligned(f2, d) < TWO_58
  {
    NonNegativeQuotient(8 * f2, Pow2(d));
    if d == 0 {
      assert Pow2(0) == 1;
    } else {
      Pow2Monotone(1, d);
      assert Pow2(1) == 2;
      MulMonotone(2, Pow2(d), TWO_58);
      BoundQuotient(8 * f2, Pow2(d), TWO_58);
    }
  }

  lemma DifferenceRange(a: Fpac, b: Fpac)
    requires Unsigned(b) <= Unsigned(a)
    ensures Exponent(b) <= Exponent(a)
    ensures 0 <= 8 * Fraction(a) - Aligned(Fraction(b), Exponent(a) - Exponent(b)) < TWO_59
    ensures 0 <= 8 * Fraction(a) + Aligned(Fraction(b), Exponent(a) - Exponent(b)) < 2 * TWO_59
  {
    ExponentOrder(a, b);
    AlignedRange(Fraction(b), Exponent(a) - Exponent(b));
  }

  function Renormalise(exp: int, g: nat): (int, nat) {
    if g >= TWO_59 then (exp + 1, g / 2) else (exp, g)
  }

  /** Add with |fac| >= |fsrc|. */
  function OrderedAddSpec(fac: Fpac, fsrc: Fpac, fps: nat): FpResult
    requires Unsigned(fsrc) <= Unsigned(fac)
  {
    DifferenceRange(fac, fsrc);
    var d := Exponent(fac) - Exponent(fsrc);
    if Exponent(fac) == 0 then FpResult(ZERO_FAC, false, 0)
    else if Exponent(fsrc) == 0 || d >= 60 then FpResult(fac, false, 0)
    else if Negative(fac) != Negative(fsrc) then
      var g := 8 * Fraction(fac) - Aligned(Fraction(fsrc), d);
      if g == 0 then FpResult(ZERO_FAC, false, 0)
      else
        var (e, g') := Normalise(Exponent(fac), g);
        RoundPack(Negative(fac), e, g', true, fps)
    else
      var (e, g') := Renormalise(Exponent(fac), 8 * Fraction(fac) + Aligned(Fraction(fsrc), d));
      RoundPack(Negative(fac), e, g', true, fps)
  }

  function AddSpec(fac: Fpac, fsrc: Fpac, fps: nat): FpResult {
    OrderedAddSpec(Larger(fac, fsrc), Smaller(fac, fsrc), fps)
  }

  method AlignSmaller(guarded: Fpac, d: nat, ghost f2: nat) returns (r: Fpac)
    requires Val(guarded) == 8 * f2 && d < 60
    ensures Val(r) == Aligned(f2, d)
  {
    r := guarded;
    assert Pow2(0) == 1;
    if d != 0 {
      r := FRshV(r, d);
    }
  }

  method AddFp11(fac0: Fpac, fsrc0: Fpac, fps: nat) returns (r: Fpac, v: bool, fec: nat)
    ensures FpResult(r, v, fec) == AddSpec(fac0, fsrc0, fps)
  {
    var fac, fsrc := fac0, fsrc0;
    if FLtAp(fac, fsrc) {
      fac, fsrc := fsrc, fac;
    }
    hide OrderedAddSpec, Unsigned;
    r, v, fec := AddSmaller(fac, fsrc, fps);
  }

  method AddSmaller(fac: Fpac, fsrc: Fpac, fps: nat) returns (r: Fpac, v: bool, fec: nat)
    requires Unsigned(fsrc) <= Unsigned(fac)
    ensures FpResult(r, v, fec) == OrderedAddSpec(fac, fsrc, fps)
  {
    DifferenceRange(fac, fsrc);
    hide Fraction, RoundPack, Aligned, Normalise, Renormalise, Unsigned, Exponent, Negative, FLtAp;
    var facexp: int, fsrcexp: int := Exponent(fac), Exponent(fsrc);
    if facexp == 0 {
      return if fsrcexp != 0 then fsrc else ZERO_FAC, false, 0;
    }
    if fsrcexp == 0 {
      return fac, false, 0;
    }
    var ediff := facexp - fsrcexp;
    if ediff >= 60 {
      return fac, false, 0;
    }
    if Negative(fac) != Negative(fsrc) {
      r, v, fec := SubtractFractions(fac, fsrc, ediff, fps);
    } else {
      r, v, fec := AddFractions(fac, fsrc, ediff, fps);
    }
  }

  method GuardedPair(fac: Fpac, fsrc: Fpac, ediff: nat) returns (facfrac: Fpac, fsrcfrac: Fpac)
    requires ediff < 60
    ensures Val(facfrac) == 8 * Fraction(fac)
    ensures Val(fsrcfrac) == Aligned(Fraction(fsrc), ediff)
  {
    facfrac, fsrcfrac := FGetFrac(fac), FGetFrac(fsrc);
    GuardFits(facfrac);
    GuardFits(fsrcfrac);
    facfrac, fsrcfrac := FLshK(facfrac, 3), FLshK(fsrcfrac, 3);
    hide FLshK, FGetFrac, Aligned;
    fsrcfrac := AlignSmaller(fsrcfrac, ediff, Fraction(fsrc));
  }

  method SubtractFractions(fac: Fpac, fsrc: Fpac, ediff: nat, fps: nat) returns (r: Fpac, v: bool, fec: nat)
    requires ediff < 60
    requires 0 <= 8 * Fraction(fac) - Aligned(Fraction(fsrc), ediff) < TWO_59
    ensures var g := 8 * Fraction(fac) - Aligned(Fraction(fsrc), ediff);
            FpResult(r, v, fec) == if g == 0 then FpResult(ZERO_FAC, false, 0)
                                   else RoundPack(Negative(fac), Normalise(Exponent(fac), g).0,
                                                  Normalise(Exponent(fac), g).1, true, fps)
  {
    var facexp: int := Exponent(fac);
    var facfrac, fsrcfrac := GuardedPair(fac, fsrc, ediff);
    hide Fraction, RoundPack, Aligned, Normalise, Exponent;
    Wrap(Val(facfrac) - Val(fsrcfrac), TWO_64);
    facfrac := FSub(fsrcfrac, facfrac);
    if facfrac.h == 0 && facfrac.l == 0 {
      return ZERO_FAC, false, 0;
    }
    if ediff <= 1 {
      facfrac, facexp := NormaliseByLadder(facfrac, facexp);
    } else {
      facfrac, facexp := NormaliseByOnes(facfrac, facexp);
    }
    r, v, fec := RoundAndPack(fac, facexp, facfrac, true, fps);
  }

  method AddFractions(fac: Fpac, fsrc: Fpac, ediff: nat, fps: nat) returns (r: Fpac, v: bool, fec: nat)
    requires ediff < 60
    requires 0 <= 8 * Fraction(fac) + Aligned(Fraction(fsrc), ediff) < 2 * TWO_59
    ensures var (e, g) := Renormalise(Exponent(fac), 8 * Fraction(fac) + Aligned(Fraction(fsrc), ediff));
            FpResult(r, v, fec) == RoundPack(Negative(fac), e, g, true, fps)
  {
    var facexp: int := Exponent(fac);
    var facfrac, fsrcfrac := GuardedPair(fac, fsrc, ediff);
    AlignedRange(Fraction(fsrc), ediff);
    SumNormal(facexp, Fraction(fac), Aligned(Fraction(fsrc), ediff));
    hide Fraction, RoundPack, Aligned, Exponent;
    Wrap(Val(facfrac) + Val(fsrcfrac), TWO_64);
    facfrac := FAdd(fsrcfrac, facfrac);
    facfrac, facexp := CarryOut(facfrac, facexp);
    r, v, fec := RoundAndPack(fac, facexp, facfrac, true, fps);
  }

  lemma SumNormal(exp: int, f1: nat, q: nat)
    requires TWO_55 <= f1 && 8 * f1 + q < 2 * TWO_59
    ensures TWO_58 <= Renormalise(exp, 8 * f1 + q).1 < TWO_59
  {
  }

  method CarryOut(frac0: Fpac, exp0: int) returns (frac: Fpac, exp: int)
    requires Val(frac0) < 2 * TWO_59
    ensures (exp, Val(frac)) == Renormalise(exp0, Val(frac0))
  {
    frac, exp := frac0, exp0;
    TopBit(frac);
    if GetBit(frac.h, 27) {
      frac := FRsh1(frac);
      exp := exp + 1;
    }
  }

  // ---- add is commutative, bit for bit ------------------------------------------------------------

  lemma SameMagnitude(a: Fpac, b: Fpac)
    requires Unsigned(a) == Unsigned(b)
    ensures Exponent(a) == Exponent(b) && Fraction(a) == Fraction(b)
    ensures Negative(a) == Negative(b) ==> a == b
  {
    UnsignedFields(a);
    UnsignedFields(b);
    SameWord(a, b);
    hide Exponent, Fraction, Negative, Unsigned;
    ModUnique(Unsigned(a), TWO_55, Exponent(a), Fraction(a) - TWO_55);
    ModUnique(Unsigned(b), TWO_55, Exponent(b), Fraction(b) - TWO_55);
  }

  lemma SameWord(a: Fpac, b: Fpac)
    requires Unsigned(a) == Unsigned(b)
    ensures Negative(a) == Negative(b) ==> a == b
  {
    ModUnique(Unsigned(a), TWO_32, a.h % TWO_31, a.l);
    ModUnique(Unsigned(b), TWO_32, b.h % TWO_31, b.l);
  }

  /** Neither the magnitude swap nor an exact tie of magnitudes makes operand order visible. */
  lemma AddCommutes(a: Fpac, b: Fpac, fps: nat)
    ensures AddSpec(a, b, fps) == AddSpec(b, a, fps)
  {
    if Unsigned(a) == Unsigned(b) {
      SameMagnitude(a, b);
      AlignedRange(Fraction(a), 0);
      hide Normalise, RoundPack, Fraction, Aligned, Unsigned;
    }
  }
}
