/** What addition delivers, measured against the exact real sum of the operand values. */
module FpAddValue {
  import opened Arith
  import opened FpWord
  import opened FpValue
  import opened FpPack
  import opened FpMul
  import opened FpAdd

  /** Operands as the instruction sees them: a single has no low half. */
  predicate Clean(a: Fpac, fps: nat) {
    !Double(fps) ==> a.l == 0
  }

  // ---- the aligned operand, exactly --------------------------------------------------------------

  /** The smaller operand's guarded fraction at the larger's exponent, before bits are dropped. */
  function ExactAligned(f2: nat, d: nat): real {
    (8 * f2) as real / Pow2(d) as real
  }

  /** Aligning drops bits. */
  predicate Lost(f2: nat, d: nat) {
    8 * f2 % Pow2(d) != 0
  }

  lemma AlignedCut(f2: nat, d: nat)
    ensures Aligned(f2, d) as real <= ExactAligned(f2, d) < Aligned(f2, d) as real + 1.0
    ensures Lost(f2, d) <==> Aligned(f2, d) as real < ExactAligned(f2, d)
  {
    hide Pow2;
    DivBounds(8 * f2, Pow2(d));
    CutInReals(8 * f2, Pow2(d), Aligned(f2, d), 1);
    ExactQuotient(8 * f2, Pow2(d));
  }

  lemma ExactQuotient(n: nat, d: nat)
    requires d > 0
    ensures n % d == 0 <==> (n / d) as real == n as real / d as real
  {
    var q, m := n / d, n % d;
    assert n == q * d + m;
    RealProduct(q, d);
    assert n as real == q as real * d as real + m as real;
    QuotientOf(n as real, d as real, q as real, m as real);
  }

  lemma QuotientOf(n: real, d: real, q: real, m: real)
    requires d > 0.0 && n == q * d + m
    ensures m == 0.0 <==> q == n / d
  {
    var r := n / d;
    assert r * d == n;
    assert (r - q) * d == m;
  }

  /** Nothing is dropped while the guard bits can hold the shift. */
  lemma NoneLost(f2: nat, d: nat)
    requires d <= 3
    ensures !Lost(f2, d)
  {
    var p := Pow2(d);
    assert p == 1 || p == 2 || p == 4 || p == 8 by {
      assert Pow2(0) == 1 && Pow2(1) == 2 && Pow2(2) == 4 && Pow2(3) == 8;
    }
    hide Pow2;
  }

  // ---- exact sums in guard units ----------------------------------------------------------------------

  lemma InGuard(f: nat, e: int, m: real)
    requires IsScaled(m, f, e - 184)
    ensures IsScaled(m, 8 * f, e - 187) && IsGuard(m, (8 * f) as real, e)
  {
    P2AddNat(e - 187, 3);
    assert Pow2(3) == 8;
    assert (8 * f) as real == 8.0 * f as real;
  }

  lemma AlignedGuard(f2: nat, e2: int, d: nat, m: real)
    requires IsScaled(m, f2, e2 - 184)
    ensures IsGuard(m, ExactAligned(f2, d), e2 + d)
  {
    hide P2, Pow2, IsScaled, IsGuard;
    InGuard(f2, e2, m);
    InGuardUnits(8 * f2, e2 - 187, d, m, ExactAligned(f2, d));
    assert e2 - 187 + d + 187 == e2 + d;
  }

  lemma CommonUnit(m1: real, m2: real, y1: real, y2: real, e: int)
    requires IsGuard(m1, y1, e) && IsGuard(m2, y2, e)
    ensures IsGuard(m1 + m2, y1 + y2, e) && IsGuard(m1 - m2, y1 - y2, e)
  {
    hide P2;
  }

  lemma MagnitudesInGuard(a: Fpac, b: Fpac)
    requires Exponent(a) != 0 && Exponent(b) != 0 && Exponent(b) <= Exponent(a)
    ensures var y1, y2 := (8 * Fraction(a)) as real, ExactAligned(Fraction(b), Exponent(a) - Exponent(b));
            && IsGuard(Magnitude(a) + Magnitude(b), y1 + y2, Exponent(a))
            && IsGuard(Magnitude(a) - Magnitude(b), y1 - y2, Exponent(a))
  {
    hide *;
    SignedValue(a);
    SignedValue(b);
    InGuard(Fraction(a), Exponent(a), Magnitude(a));
    AlignedGuard(Fraction(b), Exponent(b), Exponent(a) - Exponent(b), Magnitude(b));
    CommonUnit(Magnitude(a), Magnitude(b), (8 * Fraction(a)) as real,
               ExactAligned(Fraction(b), Exponent(a) - Exponent(b)), Exponent(a));
  }

  /** Word order of magnitudes is the order of their values. */
  lemma MagnitudeOrder(a: Fpac, b: Fpac)
    requires Exponent(a) != 0 && Exponent(b) != 0 && Unsigned(b) <= Unsigned(a)
    ensures Exponent(b) <= Exponent(a)
    ensures ExactAligned(Fraction(b), Exponent(a) - Exponent(b)) <= (8 * Fraction(a)) as real
    ensures Magnitude(b) <= Magnitude(a)
  {
    ExponentOrder(a, b);
    var d := Exponent(a) - Exponent(b);
    AlignedAtMost(Fraction(a), Fraction(b), d);
    hide *;
    MagnitudesInGuard(a, b);
    GuardSign(Magnitude(a) - Magnitude(b), (8 * Fraction(a)) as real - ExactAligned(Fraction(b), d), Exponent(a));
  }

  lemma GuardSign(x: real, y: real, e: int)
    requires IsGuard(x, y, e) && y >= 0.0
    ensures x >= 0.0 && (x == 0.0 <==> y == 0.0)
  {
    hide P2;
  }

  lemma AlignedAtMost(f1: nat, f2: nat, d: nat)
    requires TWO_55 <= f1 && f2 < TWO_56 && (d == 0 ==> f2 <= f1)
    ensures ExactAligned(f2, d) <= (8 * f1) as real
  {
    if d == 0 {
      assert Pow2(0) == 1;
    } else {
      Pow2Monotone(1, d);
      assert Pow2(d) >= Pow2(1) == 2;
      hide Pow2;
      HalfAtMost((8 * f2) as real, Pow2(d) as real, (8 * f1) as real);
    }
  }

  lemma HalfAtMost(n: real, p: real, m: real)
    requires p >= 2.0 && 0.0 <= n < 2.0 * m
    ensures n / p <= m
  {
    var r := n / p;
    assert r * p == n && r >= 0.0;
    assert r * p >= r * 2.0;
  }

  lemma AbsSum(x: real, y: real, ax: real, ay: real, nx: bool, ny: bool)
    requires x == (if nx then -ax else ax) && y == (if ny then -ay else ay) && 0.0 <= ay <= ax
    ensures Abs(x + y) == if nx == ny then ax + ay else ax - ay
  {
  }

  lemma ValueSigned(a: Fpac)
    ensures Value(a) == if Negative(a) then -Magnitude(a) else Magnitude(a)
    ensures Exponent(a) == 0 ==> Magnitude(a) == 0.0
  {
  }

  // ---- handing back an operand --------------------------------------------------------------------------

  lemma WordFields(a: Fpac)
    ensures a.h == (if Negative(a) then TWO_31 else 0) + Exponent(a) * TWO_23 + a.h % TWO_23
    ensures Fraction(a) / TWO_32 == a.h % TWO_23 + TWO_23 && Fraction(a) % TWO_32 == a.l
  {
    var u := a.h % TWO_31;
    var k := a.h / TWO_31;
    assert a.h == k * TWO_31 + u;
    DivShift(u, k * 256, TWO_23);
    ModUnique(a.h / TWO_23, 256, k, u / TWO_23);
    ModUnique(Fraction(a), TWO_32, a.h % TWO_23 + TWO_23, a.l);
  }

  /** Packing a fraction that was never touched gives the operand back, up to the ignored low half. */
  lemma PackReturns(a: Fpac, fps: nat)
    requires Exponent(a) != 0 && Clean(a, fps)
    ensures var res := RoundPack(Negative(a), Exponent(a), 8 * Fraction(a), true, fps);
            !res.v && res.fec == 0 && res.fac.h == a.h && (Double(fps) ==> res.fac == a)
  {
    WordFields(a);
    var f := Fraction(a);
    var c := if Truncating(fps) then 0 else HalfPlace(Double(fps));
    assert Rounded(Exponent(a), 8 * f, !Truncating(fps), Double(fps)) == (Exponent(a), 8 * f + c) by {
      if !Double(fps) {
        assert f == f / TWO_32 * TWO_32;
      }
    }
    hide Truncating, Double, Fraction, Exponent;
    if Double(fps) {
      assert (8 * f + c) / 8 == f;
    } else {
      assert f == f / TWO_32 * TWO_32;
      assert (8 * f + c) / 8 / TWO_32 == f / TWO_32;
    }
    assert (a.h % TWO_23 + TWO_23) % TWO_23 == a.h % TWO_23 by {
      ModUnique(a.h % TWO_23 + TWO_23, TWO_23, 1, a.h % TWO_23);
    }
  }

  /** Two results that agree where software looks deliver the same numbers. */
  lemma SameDelivery(r1: FpResult, r2: FpResult, dbl: bool, fps: nat, neg: bool, e: int, n: nat)
    requires r1.v == r2.v && r1.fec == r2.fec && r1.fac.h == r2.fac.h && (dbl ==> r1.fac == r2.fac)
    requires r1.fac.h != 0
    ensures Delivers(r1, dbl, fps, neg, e, n) <==> Delivers(r2, dbl, fps, neg, e, n)
  {
  }

  lemma SameCorrectness(r1: FpResult, r2: FpResult, x: real, neg: bool, trunc: bool, fps: nat)
    requires r1.v == r2.v && r1.fec == r2.fec && r1.fac.h == r2.fac.h && (Double(fps) ==> r1.fac == r2.fac)
    requires r1.fac.h != 0
    ensures CorrectlyRounded(r1, x, neg, trunc, fps) <==> CorrectlyRounded(r2, x, neg, trunc, fps)
  {
    hide RoundsTo, Delivers;
    forall e: int, n: nat
      ensures Delivers(r1, Double(fps), fps, neg, e, n) <==> Delivers(r2, Double(fps), fps, neg, e, n)
    {
      SameDelivery(r1, r2, Double(fps), fps, neg, e, n);
    }
  }

  /** Returning the operand itself is as correct as rounding and packing its fraction. */
  lemma OperandCorrect(a: Fpac, fps: nat, x: real)
    requires Exponent(a) != 0 && Clean(a, fps)
    ensures CorrectlyRounded(FpResult(a, false, 0), x, Negative(a), Truncating(fps), fps)
       <==> CorrectlyRounded(RoundPack(Negative(a), Exponent(a), 8 * Fraction(a), true, fps), x, Negative(a),
                             Truncating(fps), fps)
  {
    PackReturns(a, fps);
    assert a.h != 0;
    hide *;
    SameCorrectness(RoundPack(Negative(a), Exponent(a), 8 * Fraction(a), true, fps), FpResult(a, false, 0),
                    x, Negative(a), Truncating(fps), fps);
  }

  // ---- same-sign sums ---------------------------------------------------------------------------------------

  /** A cut sum, with or without a carry out of the fraction, rounds the exact sum. */
  lemma SumRounds(neg: bool, e: int, g: nat, fps: nat, x: real, y: real)
    requires TWO_58 <= g < 2 * TWO_59
    requires g as real <= y < g as real + 1.0 && IsGuard(x, y, e)
    ensures var (e', g') := Renormalise(e, g);
            CorrectlyRounded(RoundPack(neg, e', g', true, fps), x, neg, Truncating(fps), fps)
  {
    hide IsGuard, CorrectlyRounded, RoundPack;
    if g >= TWO_59 {
      var h := g / 2;
      assert h as real <= y / 2.0 < (h + 1) as real;
      HalveUnit(x, y, e);
      RoundPackCorrect(neg, e + 1, h, true, fps, x, y / 2.0, 1);
    } else {
      RoundPackCorrect(neg, e, g, true, fps, x, y, 1);
    }
  }

  lemma HalveUnit(x: real, y: real, e: int)
    requires IsGuard(x, y, e)
    ensures IsGuard(x, y / 2.0, e + 1)
    ensures IsGuard(x, 2.0 * y, e - 1)
  {
    P2Step(e - 187);
    P2Step(e - 188);
    hide P2;
    var u := P2(e - 188);
    assert y * (2.0 * u) == 2.0 * y * u;
    assert y / 2.0 * (4.0 * u) == y * (2.0 * u);
  }

  lemma OrderedSpecCases(a: Fpac, b: Fpac, fps: nat)
    requires Unsigned(b) <= Unsigned(a) && Exponent(a) != 0
    ensures Exponent(b) <= Exponent(a)
    ensures var d, q := Exponent(a) - Exponent(b), Aligned(Fraction(b), Exponent(a) - Exponent(b));
            && (Exponent(b) == 0 || d >= 60 ==> OrderedAddSpec(a, b, fps) == FpResult(a, false, 0))
            && (Exponent(b) != 0 && d < 60 && Negative(a) == Negative(b) ==>
                var (e, g) := Renormalise(Exponent(a), 8 * Fraction(a) + q);
                OrderedAddSpec(a, b, fps) == RoundPack(Negative(a), e, g, true, fps))
            && (Exponent(b) != 0 && d < 60 && Negative(a) != Negative(b) ==>
                var g := 8 * Fraction(a) - q;
                && 0 <= g < TWO_59
                && OrderedAddSpec(a, b, fps) ==
                   if g == 0 then FpResult(ZERO_FAC, false, 0)
                   else RoundPack(Negative(a), Normalise(Exponent(a), g).0, Normalise(Exponent(a), g).1, true, fps))
  {
    DifferenceRange(a, b);
    hide Fraction, Exponent, Aligned, RoundPack, Normalise, Negative, Unsigned;
  }

  lemma SumRange(f1: nat, f2: nat, d: nat)
    requires TWO_55 <= f1 < TWO_56 && TWO_55 <= f2 < TWO_56
    ensures TWO_58 <= 8 * f1 + Aligned(f2, d) < 2 * TWO_59
    ensures d >= 60 ==> Aligned(f2, d) == 0
  {
    AlignedRange(f2, d);
    hide Aligned;
    if d >= 60 {
      FarAligned(f2, d);
    }
  }

  lemma FarAligned(f2: nat, d: nat)
    requires f2 < TWO_56 && d >= 60
    ensures Aligned(f2, d) == 0
  {
    Pow2Constants();
    Pow2Monotone(59, d);
    hide Pow2;
    DivUnique(8 * f2, Pow2(d), 0);
  }

  lemma SumInGuard(a: Fpac, b: Fpac)
    requires Exponent(a) != 0 && Exponent(b) != 0 && Negative(a) == Negative(b) && Unsigned(b) <= Unsigned(a)
    ensures Exponent(b) <= Exponent(a)
    ensures IsGuard(Abs(Value(a) + Value(b)),
                    (8 * Fraction(a)) as real + ExactAligned(Fraction(b), Exponent(a) - Exponent(b)), Exponent(a))
  {
    hide *;
    MagnitudeOrder(a, b);
    MagnitudesInGuard(a, b);
    ValueSigned(a);
    ValueSigned(b);
    AbsSum(Value(a), Value(b), Magnitude(a), Magnitude(b), Negative(a), Negative(b));
  }

  lemma OrderedSum(a: Fpac, b: Fpac, fps: nat)
    requires Unsigned(b) <= Unsigned(a) && Exponent(a) != 0 && Exponent(b) != 0 && Negative(a) == Negative(b)
    requires Clean(a, fps)
    ensures CorrectlyRounded(OrderedAddSpec(a, b, fps), Abs(Value(a) + Value(b)), Negative(a), Truncating(fps), fps)
  {
    ExponentOrder(a, b);
    var d := Exponent(a) - Exponent(b);
    var g := 8 * Fraction(a) + Aligned(Fraction(b), d);
    SumRange(Fraction(a), Fraction(b), d);
    assert 8 * Fraction(a) < TWO_59;
    var y := (8 * Fraction(a)) as real + ExactAligned(Fraction(b), d);
    assert g as real <= y < g as real + 1.0 by {
      AlignedCut(Fraction(b), d);
      hide *;
    }
    hide *;
    SumInGuard(a, b);
    SumRounds(Negative(a), Exponent(a), g, fps, Abs(Value(a) + Value(b)), y);
    OrderedSpecCases(a, b, fps);
    if d >= 60 {
      RenormaliseIdle(Exponent(a), g);
      OperandCorrect(a, fps, Abs(Value(a) + Value(b)));
    }
  }

  lemma RenormaliseIdle(e: int, g: nat)
    ensures g < TWO_59 ==> Renormalise(e, g) == (e, g)
  {
  }

  lemma OrderedZero(a: Fpac, b: Fpac, fps: nat)
    requires Unsigned(b) <= Unsigned(a) && Exponent(a) != 0 && Exponent(b) == 0 && Clean(a, fps)
    ensures CorrectlyRounded(OrderedAddSpec(a, b, fps), Abs(Value(a) + Value(b)), Negative(a), Truncating(fps), fps)
  {
    assert TWO_58 <= 8 * Fraction(a) < TWO_59;
    var y, x := (8 * Fraction(a)) as real, Abs(Value(a) + Value(b));
    assert 8 * Fraction(a) as int < 8 * Fraction(a) + 1 && Gap(Double(fps), 8 * Fraction(a), 1);
    assert x == Magnitude(a) by {
      ValueSigned(a);
      ValueSigned(b);
    }
    hide *;
    OrderedSpecCases(a, b, fps);
    SignedValue(a);
    InGuard(Fraction(a), Exponent(a), Magnitude(a));
    OperandCorrect(a, fps, x);
    RoundPackCorrect(Negative(a), Exponent(a), 8 * Fraction(a), true, fps, x, y, 1);
  }

  /** Sums of operands of one sign, or with a zero operand, are the exact sum rounded once, however far
      apart the exponents: the shortcut at 60 places drops nothing that rounding would have kept. */
  lemma AddCorrectlyRounded(a: Fpac, b: Fpac, fps: nat)
    requires Clean(a, fps) && Clean(b, fps)
    requires Exponent(Larger(a, b)) != 0
    requires Negative(a) == Negative(b) || Exponent(Smaller(a, b)) == 0
    ensures CorrectlyRounded(AddSpec(a, b, fps), Abs(Value(a) + Value(b)), Negative(Larger(a, b)),
                             Truncating(fps), fps)
  {
    var l, s := Larger(a, b), Smaller(a, b);
    assert Value(a) + Value(b) == Value(l) + Value(s);
    hide Value, CorrectlyRounded, OrderedAddSpec, Exponent, Abs;
    if Exponent(s) == 0 {
      OrderedZero(l, s, fps);
    } else {
      OrderedSum(l, s, fps);
    }
  }
}
