/** Fraction multiply by shift-and-add, and the multiply instruction. */
module FpMul {
  import opened Arith
  import opened FpWord
  import opened FpValue
  import opened FpPack

  /** The guarded product of two 56-bit fractions, cut to 59 bits. */
  function FracProduct(f1: nat, f2: nat): nat {
    f1 * (8 * f2) / TWO_56
  }

  /** One multiplier bit: the running cut product absorbs the bit and is halved. */
  lemma MulStep(m: nat, c: nat, d: nat, bit: nat)
    requires d > 0
    ensures (m * c / d + bit * c) / 2 == (m + bit * d) * c / (2 * d)
  {
    DivShift(m * c, bit * c, d);
    DivDiv(m * c + bit * c * d, d, 2);
    Regroup(m, bit, d, c);
  }

  lemma Regroup(m: nat, bit: nat, d: nat, c: nat)
    ensures (m + bit * d) * c == m * c + bit * c * d
  {
  }

  /** The running cut product stays below the multiplicand, so adding never overflows. */
  lemma RunningBound(m: nat, c: nat, d: nat)
    requires 0 < d && m < d && 0 < c
    ensures 0 <= m * c / d < c
  {
    MulMonotone(m + 1, d, c);
    assert (m + 1) * c == m * c + c;
    MulMonotone(0, m, c);
    BoundQuotient(m * c, d, c);
    DivMonotone(0, m * c, d);
  }

  lemma NextBit(whole: nat, rest: nat, m: nat, d: nat)
    requires d > 0 && m < d && whole == rest * d + m
    ensures var m' := m + rest % 2 * d; m' < 2 * d && whole == rest / 2 * (2 * d) + m'
  {
    var q, b := rest / 2, rest % 2;
    assert rest == 2 * q + b;
    assert rest * d == q * (2 * d) + b * d;
    if b == 0 {
      assert b * d == 0;
    } else {
      assert b * d == d;
    }
  }

  /** After i bits: whole splits into the bits left and the bits m taken, and r is the cut product m * c. */
  predicate Partial(whole: nat, rest: nat, m: nat, c: nat, i: nat, r: int) {
    m < Pow2(i) && whole == rest * Pow2(i) + m && r == m * c / Pow2(i)
  }

  lemma PartialBound(whole: nat, rest: nat, m: nat, c: nat, i: nat, r: int)
    requires Partial(whole, rest, m, c, i, r) && 0 < c
    ensures 0 <= r < c
  {
    RunningBound(m, c, Pow2(i));
  }

  /** One pass of the loop on the number behind the halves. */
  lemma LoopStep(whole: nat, rest: nat, m: nat, c: nat, i: nat, r: nat, r': nat)
    requires Partial(whole, rest, m, c, i, r) && 0 < c
    requires r' == (if rest % 2 == 1 then r + c else r) / 2
    ensures Partial(whole, rest / 2, m + rest % 2 * Pow2(i), c, i + 1, r')
  {
    assert Pow2(i + 1) == 2 * Pow2(i);
    hide Pow2;
    NextBit(whole, rest, m, Pow2(i));
    MulStep(m, c, Pow2(i), rest % 2);
    Bit(rest % 2, c);
  }

  lemma Bit(b: nat, c: nat)
    requires b < 2
    ensures b * c == if b == 1 then c else 0
  {
  }

  /** Add the multiplicand when the multiplier bit is set, then halve. */
  function AddAndHalve(bit: bool, mpc: Fpac, result: Fpac): (r: Fpac)
    requires Val(mpc) < TWO_59 && Val(result) < TWO_59
    ensures Val(r) == (if bit then Val(result) + Val(mpc) else Val(result)) / 2
  {
    Wrap(Val(result) + Val(mpc), TWO_64);
    FRsh1(if bit then FAdd(mpc, result) else result)
  }

  /** Adding only the high halves, as the 24-bit path does, is enough when the multiplicand's low half is 0. */
  function AddHighAndHalve(bit: bool, mpc: Fpac, result: Fpac): (r: Fpac)
    requires Val(mpc) < TWO_59 && Val(result) < TWO_59 && mpc.l == 0
    ensures Val(r) == (if bit then Val(result) + Val(mpc) else Val(result)) / 2
  {
    FRsh1(if bit then Fpac(result.h + mpc.h, result.l) else result)
  }

  lemma ProductFromHigh(h: nat, c: nat)
    ensures h * c / TWO_24 == h * TWO_32 * c / TWO_56
  {
    DivCancel(h * c, TWO_24, TWO_32);
    assert h * TWO_32 * c == h * c * TWO_32;
  }

  lemma LastRest(whole: nat, rest: nat, m: nat, d: nat)
    requires d > 0 && m < d && whole == rest * d + m && whole < d
    ensures rest == 0 && m == whole
  {
    MulMonotone(1, rest, d);
  }

  lemma GuardFits(f: Fpac)
    requires Val(f) < TWO_56
    ensures Val(FLshK(f, 3)) == 8 * Val(f) < TWO_59
  {
    assert Pow2(3) == 8;
    Wrap(8 * Val(f), TWO_64);
  }

  /** All three paths compute the one cut product: 24 high bits by 24 when both low halves are zero,
      otherwise 32 low bits when there are any, then 24 high bits. */
  method FracMulFp11(f1: Fpac, f2: Fpac) returns (result: Fpac)
    requires 0 < Val(f1) < TWO_56 && 0 < Val(f2) < TWO_56
    ensures Val(result) == FracProduct(Val(f1), Val(f2))
  {
    hide Pow2, FracProduct, Partial;
    result := ZERO_FAC;
    var mpy, mpc := f1, f2;
    GuardFits(mpc);
    mpc := FLshK(mpc, 3);
    ghost var base: nat, whole, m: nat := 0, f1.h, 0;
    StartPartial(f1.h, Val(mpc));
    if mpy.l == 0 && mpc.l == 0 {
      result := HighHalfOnly(f1, mpc);
    } else {
      if mpy.l != 0 {
        result := LowHalf(f1, mpc);
        base, whole, m := 32, Val(f1), f1.l;
        JoinHalves(f1, Val(mpc), Val(result));
      }
      result := HighHalf(f1, mpc, result, base, whole, m);
    }
    hide *;
    FinishProduct(f1, f2, mpc, base, whole, result);
  }

  lemma StartPartial(whole: nat, c: nat)
    ensures Partial(whole, whole, 0, c, 0, 0)
  {
    assert Pow2(0) == 1;
  }

  lemma LowFits(f1: Fpac)
    ensures f1.l < Pow2(32)
  {
    Pow2Constants();
  }

  /** The low half is absorbed; the high half is what is left of the whole. */
  lemma JoinHalves(f1: Fpac, c: nat, r: int)
    requires r == f1.l * c / Pow2(32)
    ensures Partial(Val(f1), f1.h, f1.l, c, 32, r)
  {
    Pow2Constants();
  }

  /** With no bits left and the whole below 2^i, everything has been taken. */
  lemma PartialDone(whole: nat, rest: nat, m: nat, c: nat, i: nat, r: int)
    requires Partial(whole, rest, m, c, i, r) && whole < Pow2(i)
    ensures rest == 0 && m == whole && r == whole * c / Pow2(i)
  {
    LastRest(whole, rest, m, Pow2(i));
  }

  lemma FinishProduct(f1: Fpac, f2: Fpac, mpc: Fpac, base: nat, whole: nat, result: Fpac)
    requires Val(f1) < TWO_56 && Val(mpc) == 8 * Val(f2)
    requires (base == 0 && whole == f1.h && f1.l == 0) || (base == 32 && whole == Val(f1))
    requires Val(result) == whole * Val(mpc) / Pow2(base + 24)
    ensures Val(result) == FracProduct(Val(f1), Val(f2))
  {
    Pow2Constants();
    if base == 0 {
      ProductFromHigh(f1.h, Val(mpc));
    }
  }

  method HighHalfOnly(f1: Fpac, mpc: Fpac) returns (result: Fpac)
    requires mpc.l == 0 && f1.h < TWO_24 && 0 < Val(mpc) < TWO_59
    ensures Val(result) == f1.h * Val(mpc) / Pow2(24)
  {
    var mpyH: u32 := f1.h;
    ghost var m: nat := 0;
    result := ZERO_FAC;
    StartPartial(f1.h, Val(mpc));
    hide Partial, Pow2, AddHighAndHalve;
    var i := 0;
    while i < 24
      invariant 0 <= i <= 24
      invariant Partial(f1.h, mpyH, m, Val(mpc), i, Val(result))
    {
      PartialBound(f1.h, mpyH, m, Val(mpc), i, Val(result));
      var next := AddHighAndHalve(mpyH % 2 == 1, mpc, result);
      LoopStep(f1.h, mpyH, m, Val(mpc), i, Val(result), Val(next));
      m := m + mpyH % 2 * Pow2(i);
      result, mpyH := next, mpyH / 2;
      i := i + 1;
    }
    Pow2Constants();
    PartialDone(f1.h, mpyH, m, Val(mpc), 24, Val(result));
  }

  method LowHalf(f1: Fpac, mpc: Fpac) returns (result: Fpac)
    requires 0 < Val(mpc) < TWO_59
    ensures Val(result) == f1.l * Val(mpc) / Pow2(32)
  {
    var mpyL: u32 := f1.l;
    ghost var m: nat := 0;
    result := ZERO_FAC;
    StartPartial(f1.l, Val(mpc));
    hide Partial, Pow2, AddAndHalve;
    var i := 0;
    while i < 32
      invariant 0 <= i <= 32
      invariant Partial(f1.l, mpyL, m, Val(mpc), i, Val(result))
    {
      PartialBound(f1.l, mpyL, m, Val(mpc), i, Val(result));
      var next := AddAndHalve(mpyL % 2 == 1, mpc, result);
      LoopStep(f1.l, mpyL, m, Val(mpc), i, Val(result), Val(next));
      m := m + mpyL % 2 * Pow2(i);
      result, mpyL := next, mpyL / 2;
      i := i + 1;
    }
    LowFits(f1);
    PartialDone(f1.l, mpyL, m, Val(mpc), 32, Val(result));
  }

  /** Continue with the 24 high bits after base bits have been absorbed into m. */
  method HighHalf(f1: Fpac, mpc: Fpac, result0: Fpac, ghost base: nat, ghost whole: nat, ghost m0: nat)
    returns (result: Fpac)
    requires 0 < Val(mpc) < TWO_59 && f1.h < TWO_24
    requires Partial(whole, f1.h, m0, Val(mpc), base, Val(result0))
    ensures Val(result) == whole * Val(mpc) / Pow2(base + 24)
  {
    var mpyH: u32 := f1.h;
    ghost var m: nat := m0;
    result := result0;
    WholeFits(f1.h, base, m0, whole, Val(mpc), Val(result0));
    hide Partial, Pow2, AddAndHalve;
    var i := 0;
    while i < 24
      invariant 0 <= i <= 24
      invariant Partial(whole, mpyH, m, Val(mpc), base + i, Val(result))
    {
      PartialBound(whole, mpyH, m, Val(mpc), base + i, Val(result));
      var next := AddAndHalve(mpyH % 2 == 1, mpc, result);
      LoopStep(whole, mpyH, m, Val(mpc), base + i, Val(result), Val(next));
      m := m + mpyH % 2 * Pow2(base + i);
      result, mpyH := next, mpyH / 2;
      i := i + 1;
    }
    PartialDone(whole, mpyH, m, Val(mpc), base + 24, Val(result));
  }

  lemma WholeFits(h: nat, base: nat, m0: nat, whole: nat, c: nat, r: int)
    requires h < TWO_24 && Partial(whole, h, m0, c, base, r)
    ensures whole < Pow2(base + 24)
  {
    Pow2Constants();
    Pow2Add(base, 24);
    hide Pow2;
    BelowProduct(h, m0, Pow2(base), TWO_24);
  }

  lemma BelowProduct(h: nat, m: nat, p: nat, n: nat)
    requires h < n && m < p
    ensures h * p + m < p * n
  {
    MulMonotone(h + 1, n, p);
    assert (h + 1) * p == h * p + p;
  }

  function MulSpec(fac: Fpac, fsrc: Fpac, fps: nat): FpResult {
    if Exponent(fac) == 0 || Exponent(fsrc) == 0 then FpResult(ZERO_FAC, false, 0)
    else
      var neg, e := Negative(fac) != Negative(fsrc), Exponent(fac) + Exponent(fsrc) - 128;
      var g := FracProduct(Fraction(fac), Fraction(fsrc));
      ProductRange(Fraction(fac), Fraction(fsrc));
      var (e', g') := Normalised(e, g);
      RoundPack(neg, e', g', true, fps)
  }

  /** Two normalised fractions multiply to within one place of normalised. */
  lemma ProductRange(f1: nat, f2: nat)
    requires TWO_55 <= f1 < TWO_56 && TWO_55 <= f2 < TWO_56
    ensures TWO_58 / 2 <= FracProduct(f1, f2) < TWO_59
  {
    MulMonotone(TWO_55, f1, TWO_58);
    MulMonotone(TWO_55, f2, 8 * f1);
    MulMonotone(f2, TWO_56, 8 * f1);
    MulMonotone(f1, TWO_56, TWO_59);
    assert TWO_55 * TWO_58 <= f1 * (8 * f2) < TWO_56 * TWO_59 by {
      assert f1 * (8 * f2) == f2 * (8 * f1);
      assert f2 * (8 * f1) <= TWO_56 * (8 * f1);
    }
    DivMonotone(TWO_55 * TWO_58, f1 * (8 * f2), TWO_56);
    BoundQuotient(f1 * (8 * f2), TWO_56, TWO_59);
  }

  /** A word carrying the sign of a product or quotient: the exclusive-or of the operands' signs. */
  function SignOf(fac: Fpac, fsrc: Fpac): (s: Fpac)
    ensures Negative(s) <==> Negative(fac) != Negative(fsrc)
  {
    Fpac(if Negative(fac) != Negative(fsrc) then TWO_31 else 0, 0)
  }

  method MulFp11(fac: Fpac, fsrc: Fpac, fps: nat) returns (r: Fpac, v: bool, fec: nat)
    ensures FpResult(r, v, fec) == MulSpec(fac, fsrc, fps)
  {
    hide FracProduct, RoundPack, Fraction, FLsh1;
    var facexp: int, fsrcexp: int := Exponent(fac), Exponent(fsrc);
    if facexp == 0 || fsrcexp == 0 {
      return ZERO_FAC, false, 0;
    }
    var facfrac, fsrcfrac := FGetFrac(fac), FGetFrac(fsrc);
    facexp := facexp + fsrcexp - 128;
    facfrac := FracMulFp11(facfrac, fsrcfrac);
    ProductRange(Fraction(fac), Fraction(fsrc));
    HiddenBit(facfrac);
    if !GetBit(facfrac.h, 26) {
      Wrap(Val(facfrac) * 2, TWO_64);
      facfrac := FLsh1(facfrac);
      facexp := facexp - 1;
    }
    r, v, fec := RoundAndPack(SignOf(fac, fsrc), facexp, facfrac, true, fps);
  }

  // ---- the product is rounded once ------------------------------------------------------------

  lemma PositiveProduct(x: real, y: real)
    requires x > 0.0 && y > 0.0
    ensures x * y > 0.0
  {
  }

  lemma AbsProduct(x: real, y: real, ax: real, ay: real)
    requires (x == ax || x == -ax) && (y == ay || y == -ay) && ax >= 0.0 && ay >= 0.0
    ensures Abs(x * y) == ax * ay
  {
    assert ax * ay >= 0.0;
    assert x * y == ax * ay || x * y == -(ax * ay);
  }

  lemma ProductOfScaled(f1: int, s1: real, f2: int, s2: real, s: real)
    requires s1 * s2 == s
    ensures f1 as real * s1 * (f2 as real * s2) == (f1 * f2) as real * s
  {
    var x, y := f1 as real, f2 as real;
    assert (f1 * f2) as real == x * y;
    assert x * s1 * (y * s2) == x * y * (s1 * s2);
  }

  /** m is f units of 2^e. */
  ghost predicate IsScaled(m: real, f: int, e: int) {
    m == f as real * P2(e)
  }

  lemma SignedValue(a: Fpac)
    requires Exponent(a) != 0
    ensures IsScaled(Magnitude(a), Fraction(a), Exponent(a) - 184) && Fraction(a) > 0
    ensures Value(a) == Magnitude(a) || Value(a) == -Magnitude(a)
  {
    assert Fraction(a) >= TWO_55;
  }

  /** The exact product of what two operands stand for. */
  function ProductOf(a: Fpac, b: Fpac): real { Value(a) * Value(b) }

  lemma ExactProduct(a: Fpac, b: Fpac)
    requires Exponent(a) != 0 && Exponent(b) != 0
    ensures IsScaled(Abs(ProductOf(a, b)), Fraction(a) * Fraction(b), Exponent(a) + Exponent(b) - 368)
  {
    var x, y, f := Value(a), Value(b), Fraction(a) * Fraction(b);
    var z := x * y;
    assert ProductOf(a, b) == z;
    hide *;
    SignedValue(a);
    SignedValue(b);
    SignedProduct(x, y, Magnitude(a), Magnitude(b), Fraction(a), Fraction(b), Exponent(a) - 184, Exponent(b) - 184,
                  z, f);
    assert Exponent(a) - 184 + (Exponent(b) - 184) == Exponent(a) + Exponent(b) - 368;
  }

  lemma SignedProduct(x: real, y: real, ax: real, ay: real, f1: nat, f2: nat, e1: int, e2: int, z: real, f: int)
    requires (x == ax || x == -ax) && (y == ay || y == -ay) && ax >= 0.0 && ay >= 0.0
    requires IsScaled(ax, f1, e1) && IsScaled(ay, f2, e2) && z == x * y && f == f1 * f2
    ensures IsScaled(Abs(z), f, e1 + e2)
  {
    P2Add(e1, e2);
    hide P2, Abs;
    AbsProduct(x, y, ax, ay);
    ProductOfScaled(f1, P2(e1), f2, P2(e2), P2(e1 + e2));
  }

  /** P products units of 2^-112 seen as guard units, 2^k product units each. */
  lemma InGuardUnits(p: nat, e: int, k: nat, x: real, y: real)
    requires IsScaled(x, p, e) && y == p as real / Pow2(k) as real
    ensures IsGuard(x, y, e + k + 187)
  {
    P2AddNat(e, k);
    hide P2, Pow2;
    assert e + k + 187 - 187 == e + k;
    CancelScale(p as real, P2(e), Pow2(k) as real, P2(e + k), y);
  }

  lemma CancelScale(p: real, u: real, d: real, ud: real, y: real)
    requires d > 0.0 && ud == u * d && y == p / d
    ensures p * u == y * ud
  {
    assert y * d == p;
    assert y * (u * d) == y * d * u;
  }

  lemma CutInReals(p: nat, d: nat, g: nat, s: nat)
    requires d > 0 && g * d <= p < (g + s) * d
    ensures g as real <= p as real / d as real < (g + s) as real
  {
    assert (g * d) as real == g as real * d as real;
    assert ((g + s) * d) as real == (g + s) as real * d as real;
    QuotientBounds(g as real, p as real, d as real, (g + s) as real);
  }

  lemma QuotientBounds(lo: real, p: real, d: real, hi: real)
    requires d > 0.0 && lo * d <= p < hi * d
    ensures lo <= p / d < hi
  {
    var y := p / d;
    assert y * d == p;
    ScaleMonotone(lo, y, d);
    ScaleMonotone(y, hi, d);
  }

  lemma FiftyTwo()
    ensures Pow2(53) == 0x20_0000_0000_0000 && Pow2(52) == 0x10_0000_0000_0000
  {
    Pow2Constants();
    assert Pow2(56) == 8 * Pow2(53);
    assert Pow2(56) == 16 * Pow2(52);
  }

  /** The normalised cut product. */
  function Normalised(e: int, g: nat): (int, nat) {
    if g < TWO_58 then (e - 1, 2 * g) else (e, g)
  }

  predicate Cuts(g: nat, s: nat, k: nat, p: nat) {
    g * Pow2(k) <= p < (g + s) * Pow2(k)
  }

  /** A cut of p by 2^k guard units rounds p; s == 2 when the cut was doubled. */
  lemma CutRounds(neg: bool, p: nat, k: nat, e: int, g: nat, s: nat, r: bool, fps: nat, x: real)
    requires TWO_58 <= g < TWO_59 && Gap(Double(fps), g, s)
    requires Cuts(g, s, k, p) && IsScaled(x, p, e - 187 - k)
    ensures CorrectlyRounded(RoundPack(neg, e, g, r, fps), x, neg, !r || Truncating(fps), fps)
  {
    assert g * Pow2(k) <= p < (g + s) * Pow2(k);
    hide *;
    var y := p as real / Pow2(k) as real;
    InGuardUnits(p, e - 187 - k, k, x, y);
    CutInReals(p, Pow2(k), g, s);
    RoundPackCorrect(neg, e, g, r, fps, x, y, s);
  }

  lemma NormalisedIs(e: int, g: nat)
    requires TWO_58 / 2 <= g < TWO_59
    ensures if g < TWO_58 then Normalised(e, g) == (e - 1, 2 * g) && TWO_58 <= 2 * g < TWO_59
            else Normalised(e, g) == (e, g)
  {
  }

  lemma DoubledGap(dbl: bool, g: nat)
    ensures Gap(dbl, 2 * g, 2) && Gap(dbl, g, 1)
  {
  }

  lemma CutAt(g: nat, p: nat)
    requires g * 0x20_0000_0000_0000 <= p < (g + 1) * 0x20_0000_0000_0000
    ensures Cuts(g, 1, 53, p) && Cuts(2 * g, 2, 52, p)
  {
    FiftyTwo();
    hide Pow2;
  }

  /** Packing the normalised cut of p / 2^53 guard units rounds p itself. */
  lemma CutProductRounds(neg: bool, p: nat, e: int, g: nat, r: bool, fps: nat, x: real)
    requires TWO_58 / 2 <= g < TWO_59
    requires g * 0x20_0000_0000_0000 <= p < (g + 1) * 0x20_0000_0000_0000
    requires IsScaled(x, p, e - 240)
    ensures var (e', g') := Normalised(e, g);
            CorrectlyRounded(RoundPack(neg, e', g', r, fps), x, neg, !r || Truncating(fps), fps)
  {
    NormalisedIs(e, g);
    CutAt(g, p);
    hide *;
    assert e - 240 == (e - 1) - 187 - 52 == e - 187 - 53;
    DoubledGap(Double(fps), g);
    if g < TWO_58 {
      CutRounds(neg, p, 52, e - 1, 2 * g, 2, r, fps, x);
    } else {
      CutRounds(neg, p, 53, e, g, 1, r, fps, x);
    }
  }

  lemma MulSpecPacks(a: Fpac, b: Fpac, fps: nat)
    requires Exponent(a) != 0 && Exponent(b) != 0
    ensures var g := FracProduct(Fraction(a), Fraction(b));
            var (e, g') := Normalised(Exponent(a) + Exponent(b) - 128, g);
            && TWO_58 / 2 <= g < TWO_59
            && MulSpec(a, b, fps) == RoundPack(Negative(a) != Negative(b), e, g', true, fps)
  {
    ProductRange(Fraction(a), Fraction(b));
    hide RoundPack, FracProduct, Fraction;
  }

  /** Cutting the product at 59 bits before the one-place left shift never costs a unit: the delivered
      result is the exact product of the operand values, rounded once (or truncated under FPS_T). */
  lemma MulCorrectlyRounded(a: Fpac, b: Fpac, fps: nat)
    requires Exponent(a) != 0 && Exponent(b) != 0
    ensures CorrectlyRounded(MulSpec(a, b, fps), Abs(ProductOf(a, b)), Negative(a) != Negative(b),
                             Truncating(fps), fps)
  {
    hide *;
    ExactProduct(a, b);
    ProductCut(Fraction(a), Fraction(b));
    MulSpecPacks(a, b, fps);
    CutProductRounds(Negative(a) != Negative(b), Fraction(a) * Fraction(b), Exponent(a) + Exponent(b) - 128,
                     FracProduct(Fraction(a), Fraction(b)), true, fps, Abs(ProductOf(a, b)));
  }

  lemma ProductCut(f1: nat, f2: nat)
    ensures FracProduct(f1, f2) * 0x20_0000_0000_0000 <= f1 * f2 < (FracProduct(f1, f2) + 1) * 0x20_0000_0000_0000
  {
    assert f1 * (8 * f2) == 8 * (f1 * f2);
    DivBounds(f1 * (8 * f2), TWO_56);
  }

  lemma FracProductCommutes(f1: nat, f2: nat)
    ensures FracProduct(f1, f2) == FracProduct(f2, f1)
  {
    assert f1 * (8 * f2) == f2 * (8 * f1);
  }

  /** The asymmetric multiplier is invisible. */
  lemma MulCommutes(a: Fpac, b: Fpac, fps: nat)
    ensures MulSpec(a, b, fps) == MulSpec(b, a, fps)
  {
    hide *;
    FracProductCommutes(Fraction(a), Fraction(b));
    if Exponent(a) != 0 && Exponent(b) != 0 {
      MulSpecPacks(a, b, fps);
      MulSpecPacks(b, a, fps);
    } else {
      MulSpecZero(a, b, fps);
      MulSpecZero(b, a, fps);
    }
  }

  lemma MulSpecZero(a: Fpac, b: Fpac, fps: nat)
    requires Exponent(a) == 0 || Exponent(b) == 0
    ensures MulSpec(a, b, fps) == FpResult(ZERO_FAC, false, 0)
  {
    hide RoundPack, FracProduct, Fraction, Exponent;
  }
}
