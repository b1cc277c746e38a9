/** The restoring divider and the divide instruction. */
module FpDiv {
  import opened Arith
  import opened FpWord
  import opened FpValue
  import opened FpPack
  import opened FpMul

  /** Quotient bits after the first: 58 in double, 26 in single precision. */
  function QuotientBits(dbl: bool): nat {
    if dbl then 58 else 26
  }

  /** Where the quotient's last bit is collected: bit 0 of the low half, or of the high half. */
  function QuotientUnit(dbl: bool): nat {
    if dbl then 1 else TWO_32
  }

  /** The cut quotient as the loop leaves it, guarded. */
  function FracQuotient(f1: nat, f2: nat, dbl: bool): nat
    requires f2 > 0
  {
    f1 * Pow2(QuotientBits(dbl)) / f2 * QuotientUnit(dbl)
  }

  // ---- the restoring step on numbers ----------------------------------------------------------

  /** After j steps: a * 2^j is q divisors of 2b with remainder r. */
  predicate DivInv(a: nat, b: nat, j: nat, q: nat, r: nat) {
    a * Pow2(j) == 2 * q * b + r && r < 2 * b
  }

  lemma DivStep(a: nat, b: nat, j: nat, q: nat, r: nat)
    requires DivInv(a, b, j, q, r)
    ensures r >= b ==> DivInv(a, b, j + 1, 2 * q + 1, 2 * (r - b))
    ensures r < b ==> DivInv(a, b, j + 1, 2 * q, 2 * r)
  {
    assert Pow2(j + 1) == 2 * Pow2(j);
    assert a * (2 * Pow2(j)) == 2 * (a * Pow2(j));
    assert 2 * (2 * q + 1) * b == 4 * q * b + 2 * b;
    assert 2 * (2 * q) * b == 4 * q * b;
  }

  /** A zero remainder stays zero: the early exit's left-justify equals the steps it skips. */
  lemma DivSkip(a: nat, b: nat, j: nat, q: nat, i: nat)
    requires DivInv(a, b, j, q, 0)
    ensures DivInv(a, b, j + i, q * Pow2(i), 0)
  {
    Pow2Add(j, i);
    hide Pow2;
    SkipProduct(a, b, Pow2(j), q, Pow2(i));
  }

  lemma SkipProduct(a: nat, b: nat, pj: nat, q: nat, pi: nat)
    requires a * pj == 2 * q * b
    ensures a * (pj * pi) == 2 * (q * pi) * b
  {
    calc {
      a * (pj * pi);
      { MulAssoc(a, pj, pi); }
      a * pj * pi;
      2 * q * b * pi;
      { MulAssoc(2 * q, b, pi); }
      2 * q * pi * b;
      { assert 2 * q * pi == 2 * (q * pi); }
      2 * (q * pi) * b;
    }
  }

  lemma DivDone(f1: nat, f2: nat, n: nat, q: nat, r: nat)
    requires f2 > 0 && DivInv(8 * f1, 8 * f2, n + 1, q, r)
    ensures q == f1 * Pow2(n) / f2
  {
    assert Pow2(n + 1) == 2 * Pow2(n);
    hide Pow2;
    DivDoneProduct(f1, f2, Pow2(n), q, r);
  }

  lemma DivDoneProduct(f1: nat, f2: nat, p: nat, q: nat, r: nat)
    requires f2 > 0 && 8 * f1 * (2 * p) == 2 * q * (8 * f2) + r && r < 16 * f2
    ensures q == f1 * p / f2
  {
    var n, w := f1 * p, q * f2;
    Sixteenfold(8, f1, 2, p);
    Sixteenfold(2, q, 8, f2);
    assert (q + 1) * f2 == w + f2;
    DivUnique(n, f2, q);
  }

  lemma Sixteenfold(k: nat, x: nat, m: nat, y: nat)
    requires k * m == 16
    ensures k * x * (m * y) == 16 * (x * y)
  {
    MulAssoc(k * x, m, y);
    MulAssoc(k, x, m);
    MulAssoc(16, x, y);
  }

  lemma QuotientBelow(a: nat, b: nat, j: nat, q: nat, r: nat)
    requires DivInv(a, b, j, q, r) && a < 2 * b
    ensures q < Pow2(j)
  {
    hide Pow2;
    QuotientBelowProduct(a, b, Pow2(j), q);
  }

  lemma QuotientBelowProduct(a: nat, b: nat, p: nat, q: nat)
    requires 2 * q * b <= a * p && a < 2 * b && p > 0
    ensures q < p
  {
    MulMonotone(a + 1, 2 * b, p);
    assert (a + 1) * p == a * p + p;
    MulMonotone(p, q, 2 * b);
    assert 2 * q * b == q * (2 * b) && 2 * b * p == p * (2 * b);
  }

  lemma DivStart(a: nat, b: nat)
    requires a < 2 * b
    ensures DivInv(a, b, 0, 0, a)
  {
    assert Pow2(0) == 1;
  }

  // ---- the loop on halves ---------------------------------------------------------------------

  /** C's `x | 1`. */
  function OrOne(x: u32): u32 {
    if x % 2 == 0 then x + 1 else x
  }

  /** Setting the collecting bit of a quotient that has just been shifted adds one unit. */
  lemma SetQuotientBit(quo: Fpac, q: nat, dbl: bool)
    requires Val(quo) == 2 * q * QuotientUnit(dbl) && (dbl || quo.l == 0)
    ensures var s := if dbl then Fpac(quo.h, OrOne(quo.l)) else Fpac(OrOne(quo.h), quo.l);
            Val(s) == (2 * q + 1) * QuotientUnit(dbl) && (dbl || s.l == 0)
  {
    if dbl {
      assert Val(quo) % 2 == 0;
    } else {
      assert quo.h == 2 * q;
    }
  }

  lemma ShiftQuotient(quo: Fpac, q: nat, dbl: bool)
    requires Val(quo) == q * QuotientUnit(dbl) && Val(quo) < TWO_59 && (dbl || quo.l == 0)
    ensures Val(FLsh1(quo)) == 2 * q * QuotientUnit(dbl) && (dbl || FLsh1(quo).l == 0)
  {
    Wrap(Val(quo) * 2, TWO_64);
    if !dbl {
      assert 0 * 2 % TWO_32 == 0;
    }
  }

  lemma QuotientFits(q: nat, j: nat, dbl: bool)
    requires q < Pow2(j) && j <= QuotientBits(dbl) + 1
    ensures q * QuotientUnit(dbl) < TWO_59
  {
    Pow2Constants();
    Pow2Monotone(j, QuotientBits(dbl) + 1);
    hide Pow2;
    assert q < if dbl then TWO_59 else 0x800_0000;
  }

  method DivideFractions(facfrac0: Fpac, fsrcfrac: Fpac, dbl: bool, ghost f1: nat, ghost f2: nat)
    returns (quo: Fpac)
    requires TWO_55 <= f1 < TWO_56 && TWO_55 <= f2 < TWO_56
    requires Val(facfrac0) == 8 * f1 && Val(fsrcfrac) == 8 * f2
    ensures Val(quo) == FracQuotient(f1, f2, dbl)
  {
    var facfrac := facfrac0;
    var count := 26 + if dbl then 33 else 1;
    quo := ZERO_FAC;
    ghost var q: nat := 0;
    DivStart(8 * f1, 8 * f2);
    hide DivInv, Pow2, FLsh1, FSub, FracQuotient;
    var i: nat := count;
    while i > 0 && (facfrac.h != 0 || facfrac.l != 0)
      invariant i <= count
      invariant DivInv(8 * f1, 8 * f2, count - i, q, Val(facfrac)) && Val(facfrac) < 16 * f2
      invariant Val(quo) == q * QuotientUnit(dbl) && (dbl || quo.l == 0)
    {
      DivideStep(facfrac, fsrcfrac, quo, q, count - i, dbl, f1, f2);
      quo := FLsh1(quo);
      if !FLt(facfrac, fsrcfrac) {
        facfrac := FSub(fsrcfrac, facfrac);
        if dbl {
          quo := Fpac(quo.h, OrOne(quo.l));
        } else {
          quo := Fpac(OrOne(quo.h), quo.l);
        }
        q := 2 * q + 1;
      } else {
        q := 2 * q;
      }
      facfrac := FLsh1(facfrac);
      i := i - 1;
    }
    if i > 0 {
      LeftJustify(facfrac, quo, q, count - i, i, dbl, f1, f2);
      q := q * Pow2(i);
      quo := FLshV(quo, i);
    }
    QuotientDone(f1, f2, q, Val(facfrac), dbl);
  }

  /** What one pass of the loop does to dividend and quotient, whichever way the comparison goes. */
  lemma DivideStep(facfrac: Fpac, fsrcfrac: Fpac, quo: Fpac, q: nat, j: nat, dbl: bool, f1: nat, f2: nat)
    requires f1 < 2 * f2 && f2 < TWO_56 && Val(fsrcfrac) == 8 * f2
    requires j <= QuotientBits(dbl)
    requires DivInv(8 * f1, 8 * f2, j, q, Val(facfrac)) && Val(facfrac) < 16 * f2
    requires Val(quo) == q * QuotientUnit(dbl) && (dbl || quo.l == 0)
    ensures Val(facfrac) >= 8 * f2 ==>
              var rest, shifted := FLsh1(FSub(fsrcfrac, facfrac)), FLsh1(quo);
              var s := if dbl then Fpac(shifted.h, OrOne(shifted.l)) else Fpac(OrOne(shifted.h), shifted.l);
              && DivInv(8 * f1, 8 * f2, j + 1, 2 * q + 1, Val(rest)) && Val(rest) < 16 * f2
              && Val(s) == (2 * q + 1) * QuotientUnit(dbl) && (dbl || s.l == 0)
    ensures Val(facfrac) < 8 * f2 ==>
              var rest, shifted := FLsh1(facfrac), FLsh1(quo);
              && DivInv(8 * f1, 8 * f2, j + 1, 2 * q, Val(rest)) && Val(rest) < 16 * f2
              && Val(shifted) == 2 * q * QuotientUnit(dbl) && (dbl || shifted.l == 0)
  {
    hide *;
    QuotientBelow(8 * f1, 8 * f2, j, q, Val(facfrac));
    QuotientFits(q, j, dbl);
    ShiftQuotient(quo, q, dbl);
    SetQuotientBit(FLsh1(quo), q, dbl);
    if Val(facfrac) >= 8 * f2 {
      DividendTaken(facfrac, fsrcfrac, q, j, f1, f2);
    } else {
      DividendKept(facfrac, q, j, f1, f2);
    }
  }

  lemma DividendTaken(facfrac: Fpac, fsrcfrac: Fpac, q: nat, j: nat, f1: nat, f2: nat)
    requires f2 < TWO_56 && Val(fsrcfrac) == 8 * f2 <= Val(facfrac) < 16 * f2
    requires DivInv(8 * f1, 8 * f2, j, q, Val(facfrac))
    ensures var rest := FLsh1(FSub(fsrcfrac, facfrac));
            DivInv(8 * f1, 8 * f2, j + 1, 2 * q + 1, Val(rest)) && Val(rest) < 16 * f2
  {
    DivStep(8 * f1, 8 * f2, j, q, Val(facfrac));
    hide DivInv, Pow2;
    Wrap(Val(facfrac) - Val(fsrcfrac), TWO_64);
    Wrap(2 * (Val(facfrac) - 8 * f2), TWO_64);
  }

  lemma DividendKept(facfrac: Fpac, q: nat, j: nat, f1: nat, f2: nat)
    requires f2 < TWO_56 && Val(facfrac) < 8 * f2
    requires DivInv(8 * f1, 8 * f2, j, q, Val(facfrac))
    ensures var rest := FLsh1(facfrac);
            DivInv(8 * f1, 8 * f2, j + 1, 2 * q, Val(rest)) && Val(rest) < 16 * f2
  {
    DivStep(8 * f1, 8 * f2, j, q, Val(facfrac));
    hide DivInv, Pow2;
    Wrap(2 * Val(facfrac), TWO_64);
  }

  lemma LeftJustify(facfrac: Fpac, quo: Fpac, q: nat, j: nat, i: nat, dbl: bool, f1: nat, f2: nat)
    requires TWO_55 <= f1 < TWO_56 && TWO_55 <= f2 < TWO_56
    requires 1 <= i && j + i == QuotientBits(dbl) + 1
    requires facfrac.h == 0 && facfrac.l == 0
    requires DivInv(8 * f1, 8 * f2, j, q, Val(facfrac)) && Val(quo) == q * QuotientUnit(dbl)
    ensures DivInv(8 * f1, 8 * f2, QuotientBits(dbl) + 1, q * Pow2(i), Val(facfrac))
    ensures Val(FLshV(quo, i)) == q * Pow2(i) * QuotientUnit(dbl)
  {
    DivSkip(8 * f1, 8 * f2, j, q, i);
    QuotientBelow(8 * f1, 8 * f2, j + i, q * Pow2(i), 0);
    QuotientFits(q * Pow2(i), j + i, dbl);
    MulAssoc(q, QuotientUnit(dbl), Pow2(i));
    hide Pow2, DivInv, QuotientBits;
    Wrap(q * Pow2(i) * QuotientUnit(dbl), TWO_64);
  }

  lemma QuotientDone(f1: nat, f2: nat, q: nat, r: nat, dbl: bool)
    requires f2 > 0 && DivInv(8 * f1, 8 * f2, QuotientBits(dbl) + 1, q, r)
    ensures q * QuotientUnit(dbl) == FracQuotient(f1, f2, dbl)
  {
    DivDone(f1, f2, QuotientBits(dbl), q, r);
  }

  function DivSpec(fac: Fpac, fsrc: Fpac, fps: nat): FpResult {
    if Exponent(fac) == 0 then FpResult(ZERO_FAC, false, 0)
    else
      var neg, e := Negative(fac) != Negative(fsrc), Exponent(fac) - Exponent(fsrc) + 129;
      var g := FracQuotient(Fraction(fac), Fraction(fsrc), Double(fps));
      QuotientRange(Fraction(fac), Fraction(fsrc), Double(fps));
      var (e', g') := Normalised(e, g);
      RoundPack(neg, e', g', true, fps)
  }

  lemma QuotientRange(f1: nat, f2: nat, dbl: bool)
    requires TWO_55 <= f1 < TWO_56 && TWO_55 <= f2 < TWO_56
    ensures TWO_58 / 2 <= FracQuotient(f1, f2, dbl) < TWO_59
  {
    Pow2Constants();
    assert Pow2(26) * TWO_32 == TWO_58;
    var p := Pow2(QuotientBits(dbl));
    assert p >= 2 && p % 2 == 0;
    hide Pow2;
    QuotientBetween(f1, f2, p / 2);
  }

  lemma QuotientBetween(f1: nat, f2: nat, h: nat)
    requires f2 > 0 && f1 < 2 * f2 && f2 < 2 * f1 && h > 0
    ensures h <= f1 * (2 * h) / f2 < 4 * h
  {
    var t, u := f1 * h, f2 * h;
    MulMonotone(f2, 2 * f1, h);
    MulMonotone(f1 + 1, 2 * f2, h);
    Doubling(f1, h);
    Doubling(f2, h);
    assert (f1 + 1) * h == t + h;
    DivWithin(f1 * (2 * h), f2, h, 4 * h);
  }

  lemma Doubling(f: nat, h: nat)
    ensures f * (2 * h) == 2 * (f * h) == 2 * f * h
    ensures h * f == f * h && 4 * h * f == 4 * (f * h)
  {
    MulAssoc(f, 2, h);
    MulAssoc(4, h, f);
  }

  method DivFp11(fac: Fpac, fsrc: Fpac, fps: nat) returns (r: Fpac, v: bool, fec: nat)
    requires Exponent(fsrc) != 0
    ensures FpResult(r, v, fec) == DivSpec(fac, fsrc, fps)
  {
    hide FracQuotient, Fraction, RoundPack, FLsh1;
    var facexp: int, fsrcexp: int := Exponent(fac), Exponent(fsrc);
    if facexp == 0 {
      return ZERO_FAC, false, 0;
    }
    facexp := facexp - fsrcexp + 129;
    QuotientRange(Fraction(fac), Fraction(fsrc), Double(fps));
    var quo := GuardedQuotient(fac, fsrc, Double(fps));
    HiddenBit(quo);
    if !GetBit(quo.h, 26) {
      Wrap(Val(quo) * 2, TWO_64);
      quo := FLsh1(quo);
      facexp := facexp - 1;
    }
    r, v, fec := RoundAndPack(SignOf(fac, fsrc), facexp, quo, true, fps);
  }

  method GuardedQuotient(fac: Fpac, fsrc: Fpac, dbl: bool) returns (quo: Fpac)
    ensures Val(quo) == FracQuotient(Fraction(fac), Fraction(fsrc), dbl)
  {
    var facfrac, fsrcfrac := FGetFrac(fac), FGetFrac(fsrc);
    GuardFits(facfrac);
    GuardFits(fsrcfrac);
    facfrac, fsrcfrac := FLshK(facfrac, 3), FLshK(fsrcfrac, 3);
    quo := DivideFractions(facfrac, fsrcfrac, dbl, Fraction(fac), Fraction(fsrc));
  }

  // ---- the quotient is rounded once -----------------------------------------------------------

  /** p / d lies in [g, g + s). */
  predicate Brackets(g: nat, s: nat, p: nat, d: nat) {
    d > 0 && g * d <= p < (g + s) * d
  }

  /** x is p / d in units of 2^e. */
  ghost predicate IsRatio(x: real, p: nat, d: nat, e: int) {
    d > 0 && x == p as real / d as real * P2(e)
  }

  lemma AbsQuotient(x: real, y: real, ax: real, ay: real, q: real)
    requires (x == ax || x == -ax) && (y == ay || y == -ay) && ax >= 0.0 && ay > 0.0
    requires q >= 0.0 && q * ay == ax
    ensures y != 0.0 && Abs(x / y) == q
  {
    if q * y == x {
      QuotientIs(x, y, q);
    } else {
      QuotientIs(x, y, -q);
    }
  }

  lemma QuotientIs(x: real, y: real, q: real)
    requires y != 0.0 && q * y == x
    ensures x / y == q
  {
  }

  /** (f1 / f2) s times the divisor gives back the dividend. */
  lemma QuotientOfScaled(f1: real, s1: real, f2: real, s2: real, s: real, ax: real, ay: real)
    requires f1 > 0.0 && f2 > 0.0 && s2 > 0.0 && s > 0.0 && s1 == s * s2
    requires ax == f1 * s1 && ay == f2 * s2
    ensures ay > 0.0 && f1 / f2 * s > 0.0 && f1 / f2 * s * ay == ax
  {
    PositiveProduct(f2, s2);
    var q := f1 / f2;
    assert q * f2 == f1;
    assert q > 0.0;
    PositiveProduct(q, s);
    Interchange(q, s, f2, s2);
  }

  lemma Interchange(a: real, b: real, c: real, d: real)
    ensures a * b * (c * d) == a * c * (b * d)
  {
  }

  lemma ExactQuotient(a: Fpac, b: Fpac)
    requires Exponent(a) != 0 && Exponent(b) != 0
    ensures Value(b) != 0.0
    ensures IsRatio(Abs(Value(a) / Value(b)), Fraction(a), Fraction(b), Exponent(a) - Exponent(b))
  {
    hide *;
    SignedValue(a);
    SignedValue(b);
    SignedRatio(Value(a), Value(b), Magnitude(a), Magnitude(b), Fraction(a), Fraction(b),
                Exponent(a) - 184, Exponent(b) - 184);
  }

  lemma SignedRatio(x: real, y: real, ax: real, ay: real, f1: nat, f2: nat, e1: int, e2: int)
    requires (x == ax || x == -ax) && (y == ay || y == -ay) && f1 > 0 && f2 > 0
    requires IsScaled(ax, f1, e1) && IsScaled(ay, f2, e2)
    ensures y != 0.0 && IsRatio(Abs(x / y), f1, f2, e1 - e2)
  {
    P2Add(e1 - e2, e2);
    hide P2;
    QuotientOfScaled(f1 as real, P2(e1), f2 as real, P2(e2), P2(e1 - e2), ax, ay);
    assert ax > 0.0 by {
      PositiveProduct(f1 as real, P2(e1));
    }
    AbsQuotient(x, y, ax, ay, f1 as real / f2 as real * P2(e1 - e2));
  }

  /** The same ratio in units 2^k times smaller. */
  lemma RescaleRatio(x: real, f1: nat, f2: nat, k: nat, e: int)
    requires IsRatio(x, f1, f2, e)
    ensures IsRatio(x, f1 * Pow2(k), f2, e - k)
  {
    P2AddNat(e - k, k);
    hide P2, Pow2;
    MoveScale(f1, f2, P2(e), Pow2(k), P2(e - k));
  }

  lemma MoveScale(f1: nat, f2: nat, u: real, m: nat, d: real)
    requires f2 > 0 && u == d * m as real
    ensures f1 as real / f2 as real * u == (f1 * m) as real / f2 as real * d
  {
    var q, r := f1 as real / f2 as real, m as real;
    assert q * f2 as real == f1 as real;
    assert (f1 * m) as real == f1 as real * r;
    assert q * r * f2 as real == f1 as real * r;
    QuotientIs(f1 as real * r, f2 as real, q * r);
    assert q * r * d == q * (d * r);
  }

  /** The cut quotient g is within its own unit below f1 / f2 taken in units of 2^-58. */
  lemma QuotientCut(f1: nat, f2: nat, dbl: bool)
    requires f2 > 0
    ensures var g := FracQuotient(f1, f2, dbl);
            && g % QuotientUnit(dbl) == 0
            && Brackets(g, QuotientUnit(dbl), f1 * Pow2(58), f2)
  {
    UnitSplit(dbl);
    var p, u := Pow2(QuotientBits(dbl)), QuotientUnit(dbl);
    var q := f1 * p / f2;
    assert FracQuotient(f1, f2, dbl) == q * u;
    hide *;
    DivBounds(f1 * p, f2);
    MakeBrackets(q, 1, f1 * p, f2);
    CutMultiple(q, u);
    ScaleBrackets(q, 1, f1 * p, f2, u);
    MulAssoc(f1, p, u);
  }

  lemma MakeBrackets(g: nat, s: nat, p: nat, d: nat)
    requires d > 0 && g * d <= p < (g + s) * d
    ensures Brackets(g, s, p, d)
  {
  }

  lemma UnitSplit(dbl: bool)
    ensures Pow2(QuotientBits(dbl)) * QuotientUnit(dbl) == Pow2(58) && QuotientUnit(dbl) > 0
  {
    Pow2Constants();
  }

  lemma CutMultiple(q: int, u: int)
    requires u > 0
    ensures q * u % u == 0
  {
    ModUnique(q * u, u, q, 0);
  }

  lemma ScaleBrackets(g: nat, s: nat, p: nat, d: nat, u: nat)
    requires Brackets(g, s, p, d) && u > 0
    ensures Brackets(g * u, s * u, p * u, d)
  {
    MulAssoc(g, d, u);
    MulMonotone(g * d, p, u);
    MulMonotone(p + 1, (g + s) * d, u);
    assert (p + 1) * u == p * u + u;
    MulAssoc(g + s, d, u);
    assert (g + s) * u == g * u + s * u;
  }

  lemma DivSpecPacks(a: Fpac, b: Fpac, fps: nat)
    requires Exponent(a) != 0
    ensures var g := FracQuotient(Fraction(a), Fraction(b), Double(fps));
            var (e, g') := Normalised(Exponent(a) - Exponent(b) + 129, g);
            && TWO_58 / 2 <= g < TWO_59
            && DivSpec(a, b, fps) == RoundPack(Negative(a) != Negative(b), e, g', true, fps)
  {
    QuotientRange(Fraction(a), Fraction(b), Double(fps));
    hide RoundPack, FracQuotient, Fraction;
  }

  /** g cuts p / d with a gap of s guard units. */
  lemma RatioRounds(neg: bool, p: nat, d: nat, e: int, g: nat, s: nat, fps: nat, x: real)
    requires TWO_58 <= g < TWO_59 && Gap(Double(fps), g, s)
    requires Brackets(g, s, p, d) && IsRatio(x, p, d, e - 187)
    ensures CorrectlyRounded(RoundPack(neg, e, g, true, fps), x, neg, Truncating(fps), fps)
  {
    CutInReals(p, d, g, s);
    var y := p as real / d as real;
    assert IsGuard(x, y, e);
    hide *;
    RoundPackCorrect(neg, e, g, true, fps, x, y, s);
  }

  lemma NormalisedRatioRounds(neg: bool, f1: nat, f2: nat, e: int, g: nat, fps: nat, x: real)
    requires TWO_58 / 2 <= g < TWO_59
    requires g % QuotientUnit(Double(fps)) == 0
    requires Brackets(g, QuotientUnit(Double(fps)), f1 * Pow2(58), f2) && IsRatio(x, f1, f2, e - 129)
    ensures var (e', g') := Normalised(e, g);
            CorrectlyRounded(RoundPack(neg, e', g', true, fps), x, neg, Truncating(fps), fps)
  {
    hide Brackets, IsRatio, RoundPack, CorrectlyRounded, Pow2;
    var u := QuotientUnit(Double(fps));
    RescaleRatio(x, f1, f2, 58, e - 129);
    if g < TWO_58 {
      assert Gap(Double(fps), 2 * g, 2 * u);
      DoubleRatio(x, f1 * Pow2(58), f2, g, u, e - 187);
      RatioRounds(neg, 2 * (f1 * Pow2(58)), f2, e - 1, 2 * g, 2 * u, fps, x);
    } else {
      assert Gap(Double(fps), g, u);
      RatioRounds(neg, f1 * Pow2(58), f2, e, g, u, fps, x);
    }
  }

  lemma DoubleRatio(x: real, p: nat, d: nat, g: nat, u: nat, e: int)
    requires Brackets(g, u, p, d) && IsRatio(x, p, d, e)
    ensures Brackets(2 * g, 2 * u, 2 * p, d) && IsRatio(x, 2 * p, d, e - 1)
  {
    assert Pow2(1) == 2;
    hide Pow2;
    ScaleBrackets(g, u, p, d, 2);
    RescaleRatio(x, p, d, 1, e);
  }

  /** The packed result is the exact quotient of the operand values rounded once (or truncated). */
  lemma DivCorrectlyRounded(a: Fpac, b: Fpac, fps: nat)
    requires Exponent(a) != 0 && Exponent(b) != 0
    ensures Value(b) != 0.0
    ensures CorrectlyRounded(DivSpec(a, b, fps), Abs(Value(a) / Value(b)), Negative(a) != Negative(b),
                             Truncating(fps), fps)
  {
    hide *;
    SignedValue(b);
    ExactQuotient(a, b);
    QuotientCut(Fraction(a), Fraction(b), Double(fps));
    DivSpecPacks(a, b, fps);
    NormalisedRatioRounds(Negative(a) != Negative(b), Fraction(a), Fraction(b),
                          Exponent(a) - Exponent(b) + 129,
                          FracQuotient(Fraction(a), Fraction(b), Double(fps)), fps, Abs(Value(a) / Value(b)));
  }
}
